/** The walk over the members of a .deb in internal/apt/deb.go. A .deb is an ar
archive: a magic string, then members with a header of 60 bytes and a body that
is padded to an even length. */
module Deb {
  import opened GoText

  const Magic := "!<arch>\n"
  const HeaderSize: nat := 60

  datatype DebError =
    | ShortMagic
    | BadMagic
    | BadHeader
    | BadSize(name: string)
    | NotGzip(name: string)
    | SkipFailed(name: string)
    | NoDataMember(seen: seq<string>)

  datatype Header = Member(name: string, size: int) | EndOfArchive | Malformed | UnreadableSize(name: string)

  function TrimSlash(s: string): string {
    if HasSuffix(s, "/") then s[..|s| - 1] else s
  }

  /** The header at the start of data. A short rest is the end of the archive. */
  function ParseHeader(data: string): (h: Header)
    ensures h.Member? ==> |data| >= HeaderSize && -1_000_000_000 < h.size < 10_000_000_000
  {
    if |data| < HeaderSize then EndOfArchive
    else if data[58..60] != "`\n" then Malformed
    else
      var name := TrimSlash(TrimSpace(data[..16]));
      var size := ParseInt(TrimSpace(data[48..58]));
      if size.ok then (SizeIsShort(data[48..58]); Member(name, size.value)) else UnreadableSize(name)
  }

  /** The size field has ten characters. */
  lemma SizeIsShort(field: string)
    requires |field| == 10 && ParseInt(TrimSpace(field)).ok
    ensures -1_000_000_000 < ParseInt(TrimSpace(field)).value < 10_000_000_000
  {
    hide TrimSpace, ParseInt;
    TrimSpaceIsShorter(field);
    ParseIntBelow(TrimSpace(field), 10);
    TenDigits();
  }

  lemma TenDigits()
    ensures Pow10(9) == 1_000_000_000 && Pow10(10) == 10_000_000_000
  {
    assert Pow10(3) == 1_000;
    assert Pow10(6) == 1_000_000;
  }

  lemma TrimSpaceIsShorter(s: string)
    ensures |TrimSpace(s)| <= |s|
  {
    TrimLeftIsSuffix(s);
    TrimRightIsPrefix(TrimLeft(s));
  }

  /** What is refused: fewer than 60 bytes end the archive, and a header must end in a
  backquote and a newline and have a number in its size field. */
  lemma HeaderForms(data: string)
    ensures ParseHeader(data) == EndOfArchive <==> |data| < 60
    ensures ParseHeader(data) == Malformed <==> |data| >= 60 && (data[58] != '`' || data[59] != '\n')
    ensures ParseHeader(data).UnreadableSize? || ParseHeader(data).Member? <==>
      |data| >= 60 && data[58] == '`' && data[59] == '\n'
    ensures ParseHeader(data).Member? ==> ParseInt(TrimSpace(data[48..58])) == Parsed(ParseHeader(data).size, true)
  {
    hide TrimSpace, ParseInt, TrimSlash;
    if |data| >= 60 {
      var end := data[58..60];
      assert end[0] == data[58] && end[1] == data[59];
      assert end == "`\n" <==> end[0] == '`' && end[1] == '\n';
    }
  }

  /** How many bytes are skipped over a body. A size that is not positive skips
  nothing; so would the largest 64-bit size, whose padding wraps, but no header has
  it. */
  function SkipLength(size: int): (n: nat)
    requires MinInt <= size <= MaxInt
    ensures n % 2 == 0
    ensures 0 <= size < MaxInt ==> n == size + size % 2
    ensures size < 0 || size == MaxInt ==> n == 0
  {
    var skip := if size > 0 && size % 2 == 1 then Wrap64(size + 1) else size;
    if skip > 0 then skip else 0
  }

  /** What a reader limited to size bytes delivers of data. */
  function Limit(data: string, size: int): string {
    if size <= 0 then "" else if size <= |data| then data[..size] else data
  }

  /** The body handed to the extractor when rest are the bytes from a header on
  and seen are the members before it. */
  function Walk(rest: string, seen: seq<string>): Result<string, DebError>
    decreases |rest|
  {
    match ParseHeader(rest)
    case EndOfArchive => Err(NoDataMember(seen))
    case Malformed => Err(BadHeader)
    case UnreadableSize(name) => Err(BadSize(name))
    case Member(name, size) =>
      var body := rest[HeaderSize..];
      if "data.tar" <= name then
        if name == "data.tar.gz" then Ok(Limit(body, size)) else Err(NotGzip(name))
      else if SkipLength(size) > |body| then Err(SkipFailed(name))
      else Walk(body[SkipLength(size)..], seen + [name])
  }

  /** One member of the walk. */
  lemma WalkMember(rest: string, seen: seq<string>, name: string, size: int)
    requires ParseHeader(rest) == Member(name, size)
    ensures "data.tar" <= name ==>
      Walk(rest, seen) == if name == "data.tar.gz" then Ok(Limit(rest[HeaderSize..], size)) else Err(NotGzip(name))
    ensures !("data.tar" <= name) && SkipLength(size) > |rest[HeaderSize..]| ==> Walk(rest, seen) == Err(SkipFailed(name))
    ensures !("data.tar" <= name) && SkipLength(size) <= |rest[HeaderSize..]| ==>
      Walk(rest, seen) == Walk(rest[HeaderSize..][SkipLength(size)..], seen + [name])
  {
    hide ParseHeader;
  }

  lemma WalkStops(rest: string, seen: seq<string>)
    ensures var h := ParseHeader(rest);
      && (h.EndOfArchive? ==> Walk(rest, seen) == Err(NoDataMember(seen)))
      && (h.Malformed? ==> Walk(rest, seen) == Err(BadHeader))
      && (h.UnreadableSize? ==> Walk(rest, seen) == Err(BadSize(h.name)))
  {
    hide ParseHeader;
  }

  // ----- the loop over a file position -----

  class File {
    const data: string
    var pos: nat

    constructor (data: string)
      ensures this.data == data && pos == 0
    {
      this.data := data;
      this.pos := 0;
    }

    ghost predicate Valid()
      reads this
    {
      pos <= |data|
    }

    /** What has not been read yet. */
    ghost function Rest(): string
      reads this
      requires Valid()
    {
      data[pos..]
    }

    /** io.ReadFull into n bytes; a short read also moves to the end. */
    method ReadFull(n: nat) returns (r: Option<string>)
      requires Valid()
      modifies this`pos
      ensures Valid()
      ensures n <= |old(Rest())| ==> r == Some(old(Rest())[..n]) && Rest() == old(Rest())[n..]
      ensures n <= |old(Rest())| ==> pos == old(pos) + n
      ensures n > |old(Rest())| ==> r == None && Rest() == ""
    {
      if pos + n <= |data| {
        r := Some(data[pos..pos + n]);
        assert data[pos..pos + n] == Rest()[..n];
        pos := pos + n;
      } else {
        r := None;
        pos := |data|;
      }
    }

    /** io.CopyN to nowhere: a count that is not positive copies nothing. */
    method Skip(n: int) returns (ok: bool)
      requires Valid()
      modifies this`pos
      ensures Valid()
      ensures n <= 0 ==> ok && pos == old(pos)
      ensures 0 < n <= |old(Rest())| ==> ok && Rest() == old(Rest())[n..] && pos == old(pos) + n
      ensures n > |old(Rest())| ==> !ok
    {
      ok := true;
      if n > 0 {
        ok := pos + n <= |data|;
        pos := if ok then pos + n else |data|;
      }
    }
  }

  method ReadHeader(f: File) returns (h: Header)
    requires f.Valid()
    modifies f`pos
    ensures f.Valid() && h == ParseHeader(old(f.Rest()))
    ensures h.Member? ==> f.pos == old(f.pos) + HeaderSize && f.Rest() == old(f.Rest())[HeaderSize..]
  {
    ghost var rest := f.Rest();
    var buf := f.ReadFull(HeaderSize);
    if buf.None? {
      return EndOfArchive;
    }
    var b := buf.value;
    assert b[58..60] == rest[58..60] && b[..16] == rest[..16] && b[48..58] == rest[48..58];
    if b[58..60] != "`\n" {
      return Malformed;
    }
    var name := TrimSlash(TrimSpace(b[..16]));
    var size := ParseInt(TrimSpace(b[48..58]));
    if !size.ok {
      return UnreadableSize(name);
    }
    return Member(name, size.value);
  }

  /** The walk terminates on every input, reads every header at an even offset,
  and hands on what Walk says. */
  method ExtractData(f: File) returns (r: Result<string, DebError>, ghost offsets: seq<nat>)
    requires f.Valid() && f.pos == 0
    modifies f`pos
    ensures forall o :: o in offsets ==> o % 2 == 0
    ensures |f.data| < 8 ==> r == Err(ShortMagic)
    ensures |f.data| >= 8 && f.data[..8] != "!<arch>\n" ==> r == Err(BadMagic)
    ensures |f.data| >= 8 && f.data[..8] == "!<arch>\n" ==> r == Walk(f.data[8..], [])
  {
    hide Walk, ParseHeader, Limit;
    offsets := [];
    var magic := f.ReadFull(|Magic|);
    if magic.None? {
      return Err(ShortMagic), offsets;
    }
    if magic.value != Magic {
      return Err(BadMagic), offsets;
    }
    var seen: seq<string> := [];
    ghost var all := f.Rest();
    while true
      invariant f.Valid() && f.pos % 2 == 0
      invariant forall o :: o in offsets ==> o % 2 == 0
      invariant Walk(f.Rest(), seen) == Walk(all, [])
      decreases |f.data| - f.pos
    {
      offsets := offsets + [f.pos];
      ghost var rest := f.Rest();
      WalkStops(rest, seen);
      var h := ReadHeader(f);
      match h {
        case EndOfArchive => return Err(NoDataMember(seen)), offsets;
        case Malformed => return Err(BadHeader), offsets;
        case UnreadableSize(name) => return Err(BadSize(name)), offsets;
        case Member(name, size) =>
          WalkMember(rest, seen, name, size);
          if "data.tar" <= name {
            if name != "data.tar.gz" {
              return Err(NotGzip(name)), offsets;
            }
            var body := f.data[f.pos..];
            return Ok(Limit(body, size)), offsets;
          }
          var skip := if size > 0 && size % 2 == 1 then Wrap64(size + 1) else size;
          var ok := f.Skip(skip);
          if !ok {
            return Err(SkipFailed(name)), offsets;
          }
          assert f.Rest() == rest[HeaderSize..][SkipLength(size)..];
          seen := seen + [name];
      }
    }
  }

  // ----- the walk undoes writing -----

  /** A member to write; meta are the 32 header bytes the walk does not read, and
  slash says whether the name ends in a slash, as GNU ar writes it. */
  datatype Entry = Entry(name: string, slash: bool, meta: string, body: string)

  function Pad(s: string, n: nat): string
    requires |s| <= n
  {
    s + Repeat(' ', n - |s|)
  }

  function WrittenName(e: Entry): string {
    if e.slash then e.name + "/" else e.name
  }

  predicate ValidEntry(e: Entry) {
    && |WrittenName(e)| <= 16 && Trimmed(WrittenName(e)) && (e.slash || !HasSuffix(e.name, "/"))
    && |e.meta| == 32 && |Itoa(|e.body|)| <= 10 && |e.body| < MaxInt
  }

  function HeaderText(name: string, meta: string, size: string): (h: string)
    requires |name| <= 16 && |meta| == 32 && |size| <= 10
    ensures |h| == HeaderSize
  {
    Pad(name, 16) + meta + Pad(size, 10) + "`\n"
  }

  function WriteHeader(e: Entry): (h: string)
    requires ValidEntry(e)
    ensures |h| == HeaderSize
  {
    HeaderText(WrittenName(e), e.meta, Itoa(|e.body|))
  }

  function WriteMembers(entries: seq<Entry>): string
    requires forall e :: e in entries ==> ValidEntry(e)
  {
    if entries == [] then ""
    else
      var e := entries[0];
      WriteHeader(e) + (e.body + Repeat('\n', |e.body| % 2) + WriteMembers(entries[1..]))
  }

  /** What extracting an archive of these members must give: the body of the
  first data member, if it is the gzip one. */
  function FirstData(entries: seq<Entry>, seen: seq<string>): Result<string, DebError> {
    if entries == [] then Err(NoDataMember(seen))
    else if "data.tar" <= entries[0].name then
      if entries[0].name == "data.tar.gz" then Ok(entries[0].body) else Err(NotGzip(entries[0].name))
    else FirstData(entries[1..], seen + [entries[0].name])
  }

  lemma NameReadsBack(e: Entry)
    requires ValidEntry(e)
    ensures TrimSlash(TrimSpace(Pad(WrittenName(e), 16))) == e.name
  {
    hide TrimSpace, Trimmed;
    var name := WrittenName(e);
    TrimSpacePadded(name, 16 - |name|);
    TrimmedIsFixed(name);
    assert e.slash ==> name[..|name| - 1] == e.name && name[|name| - 1..] == "/";
  }

  lemma SizeReadsBack(n: int)
    requires |Itoa(n)| <= 10 && MinInt <= n <= MaxInt
    ensures ParseInt(TrimSpace(Pad(Itoa(n), 10))) == Parsed(n, true)
  {
    hide TrimSpace, Trimmed, ParseInt, Itoa;
    TrimSpacePadded(Itoa(n), 10 - |Itoa(n)|);
    ItoaTrimmed(n);
    TrimmedIsFixed(Itoa(n));
    ParseItoa(n);
  }

  lemma HeaderTextReadsBack(name: string, meta: string, size: int, rest: string)
    requires |name| <= 16 && |meta| == 32 && |Itoa(size)| <= 10 && MinInt <= size <= MaxInt
    ensures ParseHeader(HeaderText(name, meta, Itoa(size)) + rest) == Member(TrimSlash(TrimSpace(Pad(name, 16))), size)
  {
    hide TrimSpace, ParseInt, Itoa, TrimSlash;
    var data := HeaderText(name, meta, Itoa(size)) + rest;
    assert data[..16] == Pad(name, 16);
    assert data[48..58] == Pad(Itoa(size), 10);
    assert data[58..60] == "`\n";
    SizeReadsBack(size);
  }

  lemma HeaderReadsBack(e: Entry, rest: string)
    requires ValidEntry(e)
    ensures ParseHeader(WriteHeader(e) + rest) == Member(e.name, |e.body|)
  {
    hide TrimSpace, Trimmed, Itoa, TrimSlash, WrittenName, ParseHeader, HeaderText, Pad;
    NameReadsBack(e);
    HeaderTextReadsBack(WrittenName(e), e.meta, |e.body|, rest);
  }

  /** A header with a negative size is accepted, and no body is skipped after it: the
  next header is read right there. */
  lemma NegativeSizeSkipsNothing(name: string, meta: string, size: int, rest: string, seen: seq<string>)
    requires |name| <= 16 && Trimmed(name) && !HasSuffix(name, "/") && !("data.tar" <= name)
    requires |meta| == 32 && MinInt <= size < 0 && |Itoa(size)| <= 10
    ensures Walk(HeaderText(name, meta, Itoa(size)) + rest, seen) == Walk(rest, seen + [name])
  {
    hide ParseHeader, Itoa, HeaderText, TrimSpace, Trimmed, Walk;
    var header := HeaderText(name, meta, Itoa(size));
    HeaderTextReadsBack(name, meta, size, rest);
    TrimSpacePadded(name, 16 - |name|);
    TrimmedIsFixed(name);
    WalkMember(header + rest, seen, name, size);
    assert (header + rest)[HeaderSize..] == rest && rest[0..] == rest;
  }

  /** Of a gzip data member, as many bytes are handed on as its size says: none for a
  negative size, and those that are there when the archive is cut off. */
  lemma DataOfSize(meta: string, size: int, rest: string, seen: seq<string>)
    requires |meta| == 32 && MinInt <= size <= MaxInt && |Itoa(size)| <= 10
    ensures Walk(HeaderText("data.tar.gz", meta, Itoa(size)) + rest, seen) ==
      Ok(if size < 0 then "" else if size <= |rest| then rest[..size] else rest)
  {
    hide ParseHeader, Itoa, HeaderText, TrimSpace, Trimmed, Walk;
    var name := "data.tar.gz";
    var header := HeaderText(name, meta, Itoa(size));
    HeaderTextReadsBack(name, meta, size, rest);
    TrimSpacePadded(name, 16 - |name|);
    PlainEndsAreTrimmed(name);
    TrimmedIsFixed(name);
    assert name[10..] == "z" && name[..8] == "data.tar";
    WalkMember(header + rest, seen, name, size);
    assert (header + rest)[HeaderSize..] == rest;
  }

  lemma WalkEmpty(seen: seq<string>)
    ensures Walk("", seen) == Err(NoDataMember(seen))
  {
  }

  lemma {:induction false} WalkUndoesWrite(entries: seq<Entry>, seen: seq<string>)
    requires forall e :: e in entries ==> ValidEntry(e)
    ensures Walk(WriteMembers(entries), seen) == FirstData(entries, seen)
    decreases |entries|
  {
    hide ParseHeader, WriteHeader;
    WalkEmpty(seen);
    if entries != [] {
      var e := entries[0];
      var tail := WriteMembers(entries[1..]);
      var body := e.body + Repeat('\n', |e.body| % 2) + tail;
      HeaderReadsBack(e, body);
      assert (WriteHeader(e) + body)[HeaderSize..] == body;
      WalkMember(WriteHeader(e) + body, seen, e.name, |e.body|);
      assert Limit(body, |e.body|) == e.body;
      assert body[SkipLength(|e.body|)..] == tail;
      WalkUndoesWrite(entries[1..], seen + [e.name]);
    }
  }

  lemma {:induction false} FirstDataIsFound(before: seq<Entry>, data: Entry, after: seq<Entry>, seen: seq<string>)
    requires forall e :: e in before ==> !("data.tar" <= e.name)
    requires data.name == "data.tar.gz"
    ensures FirstData(before + [data] + after, seen) == Ok(data.body)
    decreases |before|
  {
    var all := before + [data] + after;
    if before != [] {
      assert all[0] == before[0] && all[1..] == before[1..] + [data] + after;
      FirstDataIsFound(before[1..], data, after, seen + [before[0].name]);
    }
  }

  /** The gzip data member of a written archive comes back byte for byte, when no
  member before it has a name that starts with "data.tar". */
  lemma DataComesBack(before: seq<Entry>, data: Entry, after: seq<Entry>)
    requires forall e :: e in before + [data] + after ==> ValidEntry(e)
    requires forall e :: e in before ==> !("data.tar" <= e.name)
    requires data.name == "data.tar.gz"
    ensures Walk(WriteMembers(before + [data] + after), []) == Ok(data.body)
  {
    hide ParseHeader, WriteHeader, WriteMembers, Walk;
    WalkUndoesWrite(before + [data] + after, []);
    FirstDataIsFound(before, data, after, []);
  }
}
