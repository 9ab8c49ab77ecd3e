/** The Packages index: the stanza parser and the choice of a package in
internal/apt/repo.go. The format is that of section 5.1 of the Debian Policy
Manual. */
module AptRepo {
  import opened GoText
  import opened AptVersion

  datatype Package = Package(
    name: string, version: string, architecture: string, filename: string, size: int, sha256: string)

  type Fields = map<string, string>

  function Get(fields: Fields, key: string): string {
    if key in fields then fields[key] else ""
  }

  /** The package a finished stanza yields, if it is the one asked for. */
  function Flush(cur: Fields, name: string): seq<Package> {
    if Get(cur, "Package") == name && Get(cur, "Filename") != "" then
      [Package(Get(cur, "Package"), Get(cur, "Version"), Get(cur, "Architecture"), Get(cur, "Filename"),
               ParseInt(Get(cur, "Size")).value, ToLower(Get(cur, "SHA256")))]
    else []
  }

  predicate Blank(line: string) {
    TrimSpace(line) == ""
  }

  /** The fields after one line that is not blank. */
  function ReadField(cur: Fields, line: string): Fields
    requires line != ""
  {
    var i := IndexOf(line, ':');
    if line[0] == ' ' || line[0] == '\t' || i == |line| then cur
    else cur[TrimSpace(line[..i]) := TrimSpace(line[i + 1..])]
  }

  lemma EmptyIsBlank()
    ensures Blank("")
  {
  }

  /** The packages in lines, when cur holds the fields of the open stanza. */
  function Stanzas(lines: seq<string>, cur: Fields, name: string): seq<Package> {
    if lines == [] then Flush(cur, name)
    else if Blank(lines[0]) then Flush(cur, name) + Stanzas(lines[1..], map[], name)
    else (EmptyIsBlank(); Stanzas(lines[1..], ReadField(cur, lines[0]), name))
  }

  /** The packages in the rest of an index, or None when its reader fails. */
  function PackagesFrom(text: string, broken: bool, cur: Fields, name: string): Option<seq<Package>> {
    var scan := ScanLines(text, broken);
    if scan.Failed() then None else Some(Stanzas(scan.lines, cur, name))
  }

  function Packages(text: string, broken: bool, name: string): Option<seq<Package>> {
    PackagesFrom(text, broken, map[], name)
  }

  method ParsePackages(text: string, broken: bool, name: string) returns (r: Option<seq<Package>>)
    ensures r == Packages(text, broken, name)
  {
    hide Flush, ReadField, ScanLines;
    var out: seq<Package> := [];
    var cur: Fields := map[];
    var scan := ScanLines(text, broken);
    var k := 0;
    while k < |scan.lines|
      invariant k <= |scan.lines|
      invariant out + Stanzas(scan.lines[k..], cur, name) == Stanzas(scan.lines, map[], name)
    {
      var line := scan.lines[k];
      assert scan.lines[k..][1..] == scan.lines[k + 1..];
      k := k + 1;
      if Blank(line) {
        out, cur := out + Flush(cur, name), map[];
        continue;
      }
      EmptyIsBlank();
      cur := ReadField(cur, line);
    }
    if scan.Failed() {
      return None;
    }
    out := out + Flush(cur, name);
    return Some(out);
  }

  // ----- a blank line separates: parsing is a homomorphism -----

  lemma {:induction false} StanzasSplit(x: seq<string>, blank: string, y: seq<string>, cur: Fields, name: string)
    requires Blank(blank)
    ensures Stanzas(x + [blank] + y, cur, name) == Stanzas(x, cur, name) + Stanzas(y, map[], name)
    decreases |x|
  {
    hide Flush, ReadField;
    var all := x + [blank] + y;
    if x == [] {
      assert all[1..] == y;
    } else {
      assert all[0] == x[0] && all[1..] == x[1..] + [blank] + y;
      if Blank(x[0]) {
        StanzasSplit(x[1..], blank, y, map[], name);
      } else {
        StanzasSplit(x[1..], blank, y, ReadField(cur, x[0]), name);
      }
    }
  }

  lemma LeadingBlank(y: seq<string>, name: string)
    ensures Stanzas([""] + y, map[], name) == Stanzas(y, map[], name)
  {
    assert ([""] + y)[1..] == y;
  }

  /** What scanning the joined text must give: the lines of x, one or two blank
  lines, the lines of y. */
  predicate Joined(sx: Scan, sy: Scan, all: Scan) {
    && all.Failed() == (sx.Failed() || sy.Failed())
    && (!sx.Failed() ==> all.lines == sx.lines + [""] + sy.lines || all.lines == sx.lines + ["", ""] + sy.lines)
  }

  lemma JoinedStep(line: string, sx: Scan, sy: Scan, all: Scan)
    requires Joined(sx, sy, all)
    ensures Joined(Scan([line] + sx.lines, sx.end), sy, Scan([line] + all.lines, all.end))
  {
    assert [line] + (sx.lines + [""] + sy.lines) == [line] + sx.lines + [""] + sy.lines;
    assert [line] + (sx.lines + ["", ""] + sy.lines) == [line] + sx.lines + ["", ""] + sy.lines;
  }

  lemma JoinedFailed(sy: Scan)
    ensures Joined(Scan([], FailsAfter), sy, Scan([], FailsAfter))
  {
  }

  lemma ScanBlankLine(y: string, broken: bool)
    ensures ScanLines("\n" + y, broken) == Scan([""] + ScanLines(y, broken).lines, ScanLines(y, broken).end)
  {
    assert "" + "\n" + y == "\n" + y;
    ScanLine("", y, broken);
  }

  lemma ScanJoinLast(x: string, y: string, broken: bool)
    requires '\n' !in x
    ensures Joined(ScanLines(x, false), ScanLines(y, broken), ScanLines(x + "\n\n" + y, broken))
  {
    hide ScanLines;
    var sy := ScanLines(y, broken);
    ScanLast(x, false);
    assert x + "\n\n" + y == x + "\n" + ("\n" + y);
    ScanLine(x, "\n" + y, broken);
    ScanBlankLine(y, broken);
    assert [DropCR(x)] + ([""] + sy.lines) == [DropCR(x)] + [""] + sy.lines;
    assert [""] + ([""] + sy.lines) == [] + ["", ""] + sy.lines;
  }

  lemma {:induction false} ScanJoin(x: string, y: string, broken: bool)
    ensures Joined(ScanLines(x, false), ScanLines(y, broken), ScanLines(x + "\n\n" + y, broken))
    decreases |x|
  {
    hide ScanLines, Joined, DropCR;
    var i := IndexOf(x, '\n');
    if i < |x| {
      var head, rest := x[..i], x[i + 1..];
      assert x == x[..i + 1] + rest && x[..i + 1] == head + "\n";
      assert x == head + "\n" + rest;
      ScanLine(head, rest, false);
      assert x + "\n\n" + y == head + "\n" + (rest + "\n\n" + y);
      ScanLine(head, rest + "\n\n" + y, broken);
      ScanJoin(rest, y, broken);
      JoinedFailed(ScanLines(y, broken));
      JoinedStep(DropCR(head), ScanLines(rest, false), ScanLines(y, broken), ScanLines(rest + "\n\n" + y, broken));
    } else {
      ScanJoinLast(x, y, broken);
    }
  }

  /** Parsing x, a blank line, then y equals parsing x followed by parsing y: no
  field leaks from one stanza into the next. */
  lemma ParseIsHomomorphic(x: string, y: string, broken: bool, name: string)
    ensures Packages(x + "\n\n" + y, broken, name) ==
      match (Packages(x, false, name), Packages(y, broken, name))
      case (Some(p), Some(q)) => Some(p + q)
      case _ => None
  {
    ScanJoin(x, y, broken);
    var sx, sy := ScanLines(x, false), ScanLines(y, broken);
    var all := ScanLines(x + "\n\n" + y, broken);
    if !sx.Failed() && !sy.Failed() {
      EmptyIsBlank();
      if all.lines == sx.lines + [""] + sy.lines {
        StanzasSplit(sx.lines, "", sy.lines, map[], name);
      } else {
        assert sx.lines + ["", ""] + sy.lines == sx.lines + [""] + ([""] + sy.lines);
        StanzasSplit(sx.lines, "", [""] + sy.lines, map[], name);
        LeadingBlank(sy.lines, name);
      }
    }
  }

  // ----- parsing undoes printing -----

  /** One field of a stanza, with its continuation lines. */
  datatype Field = Field(key: string, value: string, more: seq<string>)

  /** The fields of a package, with any other fields around them. */
  datatype Stanza = Stanza(before: seq<Field>, pkg: Package, after: seq<Field>)

  function PrintMore(more: seq<string>): string {
    if more == [] then "" else more[0] + "\n" + PrintMore(more[1..])
  }

  function FieldText(f: Field): string {
    f.key + ": " + f.value
  }

  function PrintField(f: Field): string {
    FieldText(f) + "\n" + PrintMore(f.more)
  }

  function PrintFields(fields: seq<Field>): string {
    if fields == [] then "" else PrintField(fields[0]) + PrintFields(fields[1..])
  }

  function PackageFields(p: Package): seq<Field> {
    [Field("Package", p.name, []), Field("Version", p.version, []), Field("Architecture", p.architecture, []),
     Field("Filename", p.filename, []), Field("Size", Itoa(p.size), []), Field("SHA256", p.sha256, [])]
  }

  const PackageKeys := {"Package", "Version", "Architecture", "Filename", "Size", "SHA256"}

  function StanzaFields(s: Stanza): seq<Field> {
    s.before + PackageFields(s.pkg) + s.after
  }

  function PrintIndex(stanzas: seq<Stanza>): string {
    if stanzas == [] then "" else PrintFields(StanzaFields(stanzas[0])) + "\n" + PrintIndex(stanzas[1..])
  }

  /** A continuation line: it starts with a space or a tab, and is not blank. */
  predicate ValidLine(line: string) {
    '\n' !in line && |line| < MaxToken && !Blank(line) && (line[..1] == " " || line[..1] == "\t")
  }

  predicate ValidField(f: Field) {
    && f.key != "" && Trimmed(f.key) && ':' !in f.key && '\n' !in f.key
    && Trimmed(f.value) && '\n' !in f.value
    && |f.key| + 2 + |f.value| < MaxToken
    && forall c :: c in f.more ==> ValidLine(c)
  }

  predicate ValidStanza(s: Stanza) {
    && (forall f :: f in StanzaFields(s) ==> ValidField(f))
    && (forall f :: f in s.before + s.after ==> f.key !in PackageKeys)
    && MinInt <= s.pkg.size <= MaxInt
  }

  /** The packages called name that have a file, with the digest in lower case. */
  function Select(stanzas: seq<Stanza>, name: string): seq<Package> {
    if stanzas == [] then []
    else
      var p := stanzas[0].pkg;
      (if p.name == name && p.filename != "" then [p.(sha256 := ToLower(p.sha256))] else []) + Select(stanzas[1..], name)
  }

  /** The fields that a list of printed fields leaves; the last value wins. */
  function AddFields(cur: Fields, fields: seq<Field>): Fields
    decreases |fields|
  {
    if fields == [] then cur else AddFields(cur[fields[0].key := fields[0].value], fields[1..])
  }

  /** A line that is not blank only adds its field. */
  lemma ReadOneLine(line: string, rest: string, broken: bool, cur: Fields, name: string)
    requires '\n' !in line && |line| < MaxToken && !Blank(DropCR(line)) && DropCR(line) != ""
    ensures PackagesFrom(line + "\n" + rest, broken, cur, name) ==
      PackagesFrom(rest, broken, ReadField(cur, DropCR(line)), name)
  {
    ScanLine(line, rest, broken);
    var r := ScanLines(rest, broken);
    assert ([DropCR(line)] + r.lines)[1..] == r.lines;
  }

  lemma ReadContinuation(c: string, rest: string, broken: bool, cur: Fields, name: string)
    requires ValidLine(c)
    ensures PackagesFrom(c + "\n" + rest, broken, cur, name) == PackagesFrom(rest, broken, cur, name)
  {
    EmptyIsBlank();
    DropCRTrims(c);
    assert c[..1][0] == c[0] && DropCR(c) != "" && DropCR(c)[0] == c[0];
    ReadOneLine(c, rest, broken, cur, name);
  }

  lemma FieldLineIsText(f: Field)
    requires ValidField(f)
    ensures '\n' !in FieldText(f) && DropCR(FieldText(f)) == FieldText(f) && !Blank(FieldText(f))
  {
    var line := FieldText(f);
    assert LeadingSpace(line) == 0;
    assert line[|f.key|] == ':';
    TrimRightKeeps(line, |f.key|);
    if f.value != "" {
      TrimmedHead(f.value);
      assert line[|line| - 1] == f.value[|f.value| - 1];
    }
  }

  lemma FieldLineIsRead(f: Field, cur: Fields)
    requires ValidField(f)
    ensures ReadField(cur, FieldText(f)) == cur[f.key := f.value]
  {
    hide Trimmed, TrimSpace;
    var line := FieldText(f);
    assert line == f.key + [':'] + (" " + f.value);
    TrimmedHead(f.key);
    IndexOfAt(f.key, ':', " " + f.value);
    assert line[..|f.key|] == f.key && line[|f.key| + 1..] == " " + f.value;
    TrimmedIsFixed(f.key);
    TrimSpacePrepend(' ', f.value);
    TrimmedIsFixed(f.value);
    assert line[0] == f.key[0];
  }

  /** White space around a key and around a value is not part of them. */
  lemma FieldIsTrimmed(key: string, value: string, i: nat, j: nat, k: nat, cur: Fields)
    requires key != "" && Trimmed(key) && ':' !in key && Trimmed(value)
    ensures ReadField(cur, key + Repeat(' ', i) + ":" + (Repeat(' ', j) + value + Repeat(' ', k))) == cur[key := value]
  {
    hide Trimmed, TrimSpace;
    var left, right := key + Repeat(' ', i), Repeat(' ', j) + value + Repeat(' ', k);
    var line := left + ":" + right;
    assert ':' !in left && line == left + [':'] + right;
    IndexOfAt(left, ':', right);
    assert line[..|left|] == left && line[|left| + 1..] == right;
    TrimmedHead(key);
    assert line[0] == key[0];
    TrimSpacePadded(key, i);
    TrimmedIsFixed(key);
    TrimSpacePadded(Repeat(' ', j) + value, k);
    TrimSpaceIndented(value, j);
    TrimmedIsFixed(value);
  }

  /** A size that is no number counts as 0, and one that is too large as the largest. */
  lemma SizeOfStanza(cur: Fields, name: string)
    requires Get(cur, "Package") == name && Get(cur, "Filename") != ""
    ensures |Flush(cur, name)| == 1
    ensures var size, digits := Flush(cur, name)[0].size, Get(cur, "Size");
      && (digits == "" || (!IsDigit(digits[0]) && digits[0] != '-' && digits[0] != '+') ==> size == 0)
      && (digits != "" && AllDigits(digits) ==> size == if Value(digits) > 9223372036854775807 then 9223372036854775807 else Value(digits))
  {
  }

  lemma PrintMoreSplit(more: seq<string>, rest: string)
    requires more != []
    ensures PrintMore(more) + rest == more[0] + "\n" + (PrintMore(more[1..]) + rest)
  {
  }

  lemma {:induction false} ReadMore(more: seq<string>, rest: string, broken: bool, cur: Fields, name: string)
    requires forall c :: c in more ==> ValidLine(c)
    ensures PackagesFrom(PrintMore(more) + rest, broken, cur, name) == PackagesFrom(rest, broken, cur, name)
  {
    hide PackagesFrom, ValidLine;
    if more == [] {
      assert PrintMore(more) + rest == rest;
    } else {
      var tail := PrintMore(more[1..]) + rest;
      PrintMoreSplit(more, rest);
      ReadContinuation(more[0], tail, broken, cur, name);
      ReadMore(more[1..], rest, broken, cur, name);
    }
  }

  lemma {:induction false} ReadFields(fields: seq<Field>, rest: string, broken: bool, cur: Fields, name: string)
    requires forall f :: f in fields ==> ValidField(f)
    ensures PackagesFrom(PrintFields(fields) + rest, broken, cur, name) ==
      PackagesFrom(rest, broken, AddFields(cur, fields), name)
  {
    hide PackagesFrom, ReadField;
    if fields == [] {
      assert PrintFields(fields) + rest == rest;
    } else {
      var f := fields[0];
      var line := FieldText(f);
      var tail := PrintFields(fields[1..]) + rest;
      assert PrintFields(fields) + rest == line + "\n" + (PrintMore(f.more) + tail);
      FieldLineIsText(f);
      FieldLineIsRead(f, cur);
      ReadOneLine(line, PrintMore(f.more) + tail, broken, cur, name);
      var next := cur[f.key := f.value];
      ReadMore(f.more, tail, broken, next, name);
      ReadFields(fields[1..], rest, broken, next, name);
    }
  }

  lemma {:induction false} AddFieldsSplit(cur: Fields, x: seq<Field>, y: seq<Field>)
    ensures AddFields(cur, x + y) == AddFields(AddFields(cur, x), y)
    decreases |x|
  {
    if x == [] {
      assert x + y == y;
    } else {
      assert (x + y)[1..] == x[1..] + y;
      AddFieldsSplit(cur[x[0].key := x[0].value], x[1..], y);
    }
  }

  lemma {:induction false} AddFieldsKeeps(cur: Fields, fields: seq<Field>, key: string)
    requires forall f :: f in fields ==> f.key != key
    ensures Get(AddFields(cur, fields), key) == Get(cur, key)
    decreases |fields|
  {
    if fields != [] {
      AddFieldsKeeps(cur[fields[0].key := fields[0].value], fields[1..], key);
    }
  }

  lemma AddPackageFields(cur: Fields, p: Package)
    ensures var r := AddFields(cur, PackageFields(p));
      && Get(r, "Package") == p.name && Get(r, "Version") == p.version
      && Get(r, "Architecture") == p.architecture && Get(r, "Filename") == p.filename
      && Get(r, "Size") == Itoa(p.size) && Get(r, "SHA256") == p.sha256
  {
    hide AddFields, Itoa;
    var fs := PackageFields(p);
    var c1 := cur["Package" := p.name]["Version" := p.version];
    var c2 := c1["Architecture" := p.architecture]["Filename" := p.filename];
    var c3 := c2["Size" := Itoa(p.size)]["SHA256" := p.sha256];
    AddFieldsSplit(cur, fs[..2], fs[2..]);
    AddFieldsSplit(c1, fs[2..4], fs[4..]);
    assert fs == fs[..2] + fs[2..] && fs[2..] == fs[2..4] + fs[4..];
    AddTwo(cur, fs[..2]);
    AddTwo(c1, fs[2..4]);
    AddTwo(c2, fs[4..]);
    assert AddFields(cur, fs) == c3;
  }

  lemma AddTwo(cur: Fields, fs: seq<Field>)
    requires |fs| == 2
    ensures AddFields(cur, fs) == cur[fs[0].key := fs[0].value][fs[1].key := fs[1].value]
  {
    var c1 := cur[fs[0].key := fs[0].value];
    var c2 := c1[fs[1].key := fs[1].value];
    assert fs[1..][0] == fs[1] && fs[1..][1..] == [];
    assert AddFields(c1, fs[1..]) == AddFields(c2, fs[1..][1..]);
  }

  /** The fields of a printed stanza give back its package. */
  lemma FlushStanza(s: Stanza, name: string)
    requires ValidStanza(s)
    ensures Flush(AddFields(map[], StanzaFields(s)), name) ==
      if s.pkg.name == name && s.pkg.filename != "" then [s.pkg.(sha256 := ToLower(s.pkg.sha256))] else []
  {
    var start := AddFields(map[], s.before);
    var core := AddFields(start, PackageFields(s.pkg));
    var all := AddFields(map[], StanzaFields(s));
    assert StanzaFields(s) == s.before + (PackageFields(s.pkg) + s.after);
    AddFieldsSplit(map[], s.before, PackageFields(s.pkg) + s.after);
    AddFieldsSplit(start, PackageFields(s.pkg), s.after);
    AddPackageFields(start, s.pkg);
    forall key | key in PackageKeys
      ensures Get(all, key) == Get(core, key)
    {
      AddFieldsKeeps(core, s.after, key);
    }
    assert forall key :: key in {"Package", "Version", "Architecture", "Filename", "Size", "SHA256"} ==> key in PackageKeys;
    ParseItoa(s.pkg.size);
  }

  /** Reading a printed index gives the packages called name that have a file,
  in order, with every field as it was and the digest in lower case. */
  lemma {:induction false} ParseUndoesPrint(stanzas: seq<Stanza>, name: string)
    requires forall s :: s in stanzas ==> ValidStanza(s)
    ensures Packages(PrintIndex(stanzas), false, name) == Some(Select(stanzas, name))
  {
    if stanzas != [] {
      var s := stanzas[0];
      assert ValidStanza(s);
      var rest := PrintIndex(stanzas[1..]);
      var fields := StanzaFields(s);
      assert PrintIndex(stanzas) == PrintFields(fields) + ("\n" + rest);
      ReadFields(fields, "\n" + rest, false, map[], name);
      ParseUndoesPrint(stanzas[1..], name);
      ScanBlankLine(rest, false);
      FlushStanza(s, name);
      EmptyIsBlank();
      var r := ScanLines(rest, false);
      assert ([""] + r.lines)[1..] == r.lines;
    }
  }

  // ----- the choice of a candidate -----

  datatype Query = Query(baseURL: string, component: string, codename: string, package: string, version: string)

  /** The text of an index, and whether its reader breaks off at the end. */
  datatype Index = Index(text: string, broken: bool)

  datatype ResolveError = NoURL | NoComponent | NoCodename | Unreadable(arch: string) | NotFound | NoSuchVersion

  const Architectures := ["all", "amd64"]

  /** The entries called name of the indexes that are available, in order, or
  the architecture whose index could not be read. */
  function Candidates(archs: seq<string>, fetch: string -> Option<Index>, name: string): Result<seq<Package>, string> {
    if archs == [] then Ok([])
    else
      match fetch(archs[0])
      case None => Candidates(archs[1..], fetch, name)
      case Some(index) =>
        match Packages(index.text, index.broken, name)
        case None => Err(archs[0])
        case Some(first) =>
          After(first, Candidates(archs[1..], fetch, name))
  }

  function After(first: seq<Package>, others: Result<seq<Package>, string>): Result<seq<Package>, string> {
    if others.Ok? then Ok(first + others.value) else others
  }

  lemma AfterNothing(others: Result<seq<Package>, string>)
    ensures After([], others) == others
  {
    if others.Ok? {
      assert [] + others.value == others.value;
    }
  }

  lemma AfterTwice(x: seq<Package>, y: seq<Package>, others: Result<seq<Package>, string>)
    ensures After(x, After(y, others)) == After(x + y, others)
  {
    if others.Ok? {
      assert x + (y + others.value) == x + y + others.value;
    }
  }

  /** p is at least every candidate, and is the first that is. */
  ghost predicate FirstMaximum(candidates: seq<Package>, p: Package) {
    exists k :: 0 <= k < |candidates| && FirstMaximumAt(candidates, k) && candidates[k] == p
  }

  ghost predicate FirstMaximumAt(candidates: seq<Package>, k: nat)
    requires k < |candidates|
  {
    && (forall j :: 0 <= j < |candidates| ==> VersionOrder(candidates[j].version, candidates[k].version) <= 0)
    && (forall j :: 0 <= j < k ==> VersionOrder(candidates[j].version, candidates[k].version) < 0)
  }

  ghost predicate NulFreeVersions(candidates: seq<Package>) {
    forall p :: p in candidates ==> NulFree(p.version)
  }

  method Best(candidates: seq<Package>) returns (best: Package)
    requires candidates != []
    ensures best in candidates
    ensures NulFreeVersions(candidates) ==> FirstMaximum(candidates, best)
  {
    hide VersionOrder;
    best := candidates[0];
    ghost var at := 0;
    BestOfOne(candidates);
    var k := 1;
    while k < |candidates|
      invariant 1 <= k <= |candidates|
      invariant 0 <= at < k && best == candidates[at]
      invariant BestSoFar(candidates, k, at)
    {
      var p := candidates[k];
      var c := CompareVersions(p.version, best.version);
      BestStep(candidates, k, at, c);
      if c > 0 {
        best, at := p, k;
      }
      k := k + 1;
    }
    assert candidates[..k] == candidates;
  }

  ghost predicate BestSoFar(candidates: seq<Package>, k: nat, at: nat)
    requires at < k <= |candidates|
  {
    NulFreeVersions(candidates) ==> FirstMaximumAt(candidates[..k], at)
  }

  lemma BestOfOne(candidates: seq<Package>)
    requires candidates != []
    ensures BestSoFar(candidates, 1, 0)
  {
    hide VersionOrder;
    VersionAntisymmetric(candidates[0].version, candidates[0].version);
  }

  lemma BestStep(candidates: seq<Package>, k: nat, at: nat, c: int)
    requires at < k < |candidates| && BestSoFar(candidates, k, at)
    requires c == VersionOrder(candidates[k].version, candidates[at].version)
    ensures BestSoFar(candidates, k + 1, if c > 0 then k else at)
  {
    hide VersionOrder;
    if NulFreeVersions(candidates) {
      var seen, p := candidates[..k], candidates[k];
      assert candidates[..k + 1] == seen + [p];
      assert NulFreeVersions(seen + [p]) by {
        assert forall q :: q in seen + [p] ==> q in candidates;
      }
      MaximumStep(seen, at, p);
    }
  }

  lemma MaximumStep(seen: seq<Package>, at: nat, p: Package)
    requires at < |seen| && FirstMaximumAt(seen, at)
    requires NulFreeVersions(seen + [p])
    ensures VersionOrder(p.version, seen[at].version) > 0 ==> FirstMaximumAt(seen + [p], |seen|)
    ensures VersionOrder(p.version, seen[at].version) <= 0 ==> FirstMaximumAt(seen + [p], at)
  {
    hide VersionOrder;
    var best := seen[at].version;
    var all := seen + [p];
    assert p in all && seen[at] in all;
    VersionAntisymmetric(p.version, p.version);
    VersionAntisymmetric(p.version, best);
    if VersionOrder(p.version, best) > 0 {
      forall j | 0 <= j < |seen| ensures VersionOrder(all[j].version, p.version) < 0 {
        assert all[j] == seen[j] && all[j] in all;
        VersionTransitive(seen[j].version, best, p.version);
      }
    }
  }

  /** Any permutation of the candidates yields an equally high version. */
  lemma MaximumIgnoresOrder(x: seq<Package>, y: seq<Package>, p: Package, q: Package)
    requires multiset(x) == multiset(y)
    requires FirstMaximum(x, p) && FirstMaximum(y, q)
    ensures VersionOrder(p.version, q.version) == 0
  {
    hide VersionOrder;
    assert p in multiset(x) && q in multiset(y);
    assert p in y && q in x;
    VersionAntisymmetric(p.version, q.version);
  }

  /** The entries called name of one index; one that is not there has none, and one
  whose reader fails cannot be read. */
  function Entries(index: Option<Index>, name: string): Option<seq<Package>> {
    if index.None? then Some([]) else Packages(index.value.text, index.value.broken, name)
  }

  /** The candidates are the entries of the index for all architectures, and then those
  of the one for amd64. */
  lemma CandidatesAre(fetch: string -> Option<Index>, name: string)
    ensures Candidates(Architectures, fetch, name) ==
      match (Entries(fetch("all"), name), Entries(fetch("amd64"), name))
      case (None, _) => Err("all")
      case (_, None) => Err("amd64")
      case (Some(x), Some(y)) => Ok(x + y)
  {
    hide Packages, Candidates;
    assert Architectures[1..] == ["amd64"] && ["amd64"][1..] == [];
    CandidatesStep(Architectures, fetch, name);
    CandidatesStep(["amd64"], fetch, name);
    NoCandidates(fetch, name);
    if Entries(fetch("amd64"), name).Some? {
      var y := Entries(fetch("amd64"), name).value;
      assert y + [] == y;
    }
  }

  lemma CandidatesStep(archs: seq<string>, fetch: string -> Option<Index>, name: string)
    requires archs != []
    ensures Candidates(archs, fetch, name) ==
      match Entries(fetch(archs[0]), name)
      case None => Err(archs[0])
      case Some(first) => After(first, Candidates(archs[1..], fetch, name))
  {
    hide Packages;
    AfterNothing(Candidates(archs[1..], fetch, name));
  }

  lemma NoCandidates(fetch: string -> Option<Index>, name: string)
    ensures Candidates([], fetch, name) == Ok([])
  {
  }

  /** p is the first of the candidates with the version. */
  ghost predicate FirstOfVersion(candidates: seq<Package>, version: string, p: Package) {
    exists k :: 0 <= k < |candidates| && candidates[k] == p && p.version == version
      && forall j :: 0 <= j < k ==> candidates[j].version != version
  }

  /** Resolve in internal/apt/repo.go, where fetch stands for the repository. */
  method Resolve(q: Query, fetch: string -> Option<Index>) returns (r: Result<Package, ResolveError>)
    ensures q.baseURL == "" ==> r == Err(NoURL)
    ensures q.baseURL != "" && q.component == "" ==> r == Err(NoComponent)
    ensures q.baseURL != "" && q.component != "" && q.codename == "" ==> r == Err(NoCodename)
    ensures q.baseURL != "" && q.component != "" && q.codename != "" ==>
      match (Entries(fetch("all"), q.package), Entries(fetch("amd64"), q.package))
      case (None, _) => r == Err(Unreadable("all"))
      case (_, None) => r == Err(Unreadable("amd64"))
      case (Some(x), Some(y)) =>
        var cs := x + y;
        if cs == [] then r == Err(NotFound)
        else if q.version == "" then r.Ok? && r.value in cs && (NulFreeVersions(cs) ==> FirstMaximum(cs, r.value))
        else if exists p :: p in cs && p.version == q.version then r.Ok? && FirstOfVersion(cs, q.version, r.value)
        else r == Err(NoSuchVersion)
  {
    hide VersionOrder, Packages, FirstMaximum, Candidates;
    if q.baseURL == "" {
      return Err(NoURL);
    }
    if q.component == "" {
      return Err(NoComponent);
    }
    if q.codename == "" {
      return Err(NoCodename);
    }
    var candidates: seq<Package> := [];
    CandidatesAre(fetch, q.package);
    assert Architectures[0..] == Architectures;
    AfterNothing(Candidates(Architectures, fetch, q.package));
    var k := 0;
    while k < |Architectures|
      invariant k <= |Architectures|
      invariant Candidates(Architectures, fetch, q.package) ==
        After(candidates, Candidates(Architectures[k..], fetch, q.package))
    {
      var arch := Architectures[k];
      assert Architectures[k..][1..] == Architectures[k + 1..];
      CandidatesStep(Architectures[k..], fetch, q.package);
      k := k + 1;
      var index := fetch(arch);
      if index.None? {
        AfterNothing(Candidates(Architectures[k..], fetch, q.package));
        continue;
      }
      var pkgs := ParsePackages(index.value.text, index.value.broken, q.package);
      if pkgs.None? {
        return Err(Unreadable(arch));
      }
      AfterTwice(candidates, pkgs.value, Candidates(Architectures[k..], fetch, q.package));
      candidates := candidates + pkgs.value;
    }
    assert Architectures[k..] == [];
    NoCandidates(fetch, q.package);
    assert candidates + [] == candidates;
    if candidates == [] {
      return Err(NotFound);
    }
    if q.version != "" {
      k := 0;
      while k < |candidates|
        invariant 0 <= k <= |candidates|
        invariant forall j :: 0 <= j < k ==> candidates[j].version != q.version
      {
        if candidates[k].version == q.version {
          return Ok(candidates[k]);
        }
        k := k + 1;
      }
      return Err(NoSuchVersion);
    }
    var best := Best(candidates);
    return Ok(best);
  }
}
