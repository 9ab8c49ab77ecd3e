/** Name templates: internal/provider/template.go. The code rewrites the template
once per placeholder; what it means is one substitution over tokens. */
module Template {
  import opened GoText

  datatype Kind = ArchiveDump | PrecomputedBlocks | DaemonConfig | GenesisConfig

  function AllowedFields(kind: Kind): set<string> {
    match kind
    case ArchiveDump => {"date", "hour"}
    case PrecomputedBlocks => {"height", "state_hash"}
    case DaemonConfig => {"ref"}
    case GenesisConfig => {}
  }

  datatype TemplateError = StrayClose | Unclosed | Empty | NotAllowed(name: string) | Missing(name: string) | UnsafeName

  type Fields = map<string, string>

  /** A character of literal text, or a placeholder. */
  datatype Token = Lit(c: char) | Hole(name: string)

  // ----- the grammar -----

  function Literals(s: string): seq<Token> {
    if s == "" then [] else [Lit(s[0])] + Literals(s[1..])
  }

  /** Where the first placeholder of a template is. A closing brace counts only
  after an opening one: one before a later placeholder is literal text, one
  after the last placeholder is an error. */
  datatype Cut = NoHole | HoleAt(literal: string, name: string, rest: string) | BadHole(error: TemplateError)

  function FirstHole(tmpl: string): (r: Cut)
    ensures r.NoHole? ==> '{' !in tmpl && '}' !in tmpl
    ensures r.HoleAt? ==> tmpl == r.literal + Placeholder(r.name) + r.rest && '{' !in r.literal
    ensures r.HoleAt? ==> r.name != "" && '}' !in r.name
    ensures r.BadHole? ==> r.error in {StrayClose, Unclosed, Empty}
  {
    var open := IndexOf(tmpl, '{');
    if open == |tmpl| then
      if '}' in tmpl then BadHole(StrayClose) else NoHole
    else
      var after := tmpl[open + 1..];
      var close := IndexOf(after, '}');
      if close == |after| then BadHole(Unclosed)
      else if close == 0 then BadHole(Empty)
      else
        CutAt(tmpl, open, close);
        HoleAt(tmpl[..open], after[..close], after[close + 1..])
  }

  lemma CutAt(tmpl: string, open: nat, close: nat)
    requires open < |tmpl| && tmpl[open] == '{'
    requires close < |tmpl[open + 1..]| && tmpl[open + 1..][close] == '}'
    ensures tmpl == tmpl[..open] + Placeholder(tmpl[open + 1..][..close]) + tmpl[open + 1..][close + 1..]
  {
    var after := tmpl[open + 1..];
    assert after == after[..close] + "}" + after[close + 1..];
    assert tmpl == tmpl[..open] + "{" + after;
  }

  /** The tokens of a template. */
  function Parse(tmpl: string): (r: Result<seq<Token>, TemplateError>)
    decreases |tmpl|
  {
    match FirstHole(tmpl)
    case NoHole => Ok(Literals(tmpl))
    case BadHole(e) => Err(e)
    case HoleAt(literal, name, rest) => ParsedAfter(literal, name, Parse(rest))
  }

  function ParsedAfter(literal: string, name: string, rest: Result<seq<Token>, TemplateError>)
    : Result<seq<Token>, TemplateError>
  {
    if rest.Err? then rest else Ok(Literals(literal) + [Hole(name)] + rest.value)
  }

  function Placeholder(n: string): string {
    "{" + n + "}"
  }

  function TokenText(t: Token): string {
    match t
    case Lit(c) => [c]
    case Hole(name) => Placeholder(name)
  }

  function Text(tokens: seq<Token>): string {
    if tokens == [] then "" else TokenText(tokens[0]) + Text(tokens[1..])
  }

  predicate ValidToken(t: Token) {
    match t
    case Lit(c) => c != '{'
    case Hole(name) => name != "" && '}' !in name
  }

  /** What Parse accepts: no opening brace in literal text, no closing brace in a
  name, and none in the literal text after the last placeholder. */
  predicate WellFormed(tokens: seq<Token>) {
    (forall t :: t in tokens ==> ValidToken(t)) && NoLateClose(tokens)
  }

  // ----- the code -----

  /** Names in order of first appearance, after those already found. */
  function AddNames(names: seq<string>, tokens: seq<Token>): seq<string>
    decreases |tokens|
  {
    if tokens == [] then names
    else
      match tokens[0]
      case Lit(_) => AddNames(names, tokens[1..])
      case Hole(n) => AddNames(if n in names then names else names + [n], tokens[1..])
  }

  function NamesOf(names: seq<string>, parsed: Result<seq<Token>, TemplateError>): Result<seq<string>, TemplateError> {
    match parsed
    case Ok(tokens) => Ok(AddNames(names, tokens))
    case Err(e) => Err(e)
  }

  lemma {:induction false} AddNamesOfLiterals(names: seq<string>, s: string, tokens: seq<Token>)
    ensures AddNames(names, Literals(s) + tokens) == AddNames(names, tokens)
    decreases |s|
  {
    if s == "" {
      assert Literals(s) + tokens == tokens;
    } else {
      assert (Literals(s) + tokens)[1..] == Literals(s[1..]) + tokens;
      AddNamesOfLiterals(names, s[1..], tokens);
    }
  }

  lemma NamesStep(names: seq<string>, literal: string, n: string, rest: Result<seq<Token>, TemplateError>)
    ensures NamesOf(names, ParsedAfter(literal, n, rest)) ==
      NamesOf(if n in names then names else names + [n], rest)
  {
    if rest.Ok? {
      assert Literals(literal) + [Hole(n)] + rest.value == Literals(literal) + ([Hole(n)] + rest.value);
      AddNamesOfLiterals(names, literal, [Hole(n)] + rest.value);
      assert ([Hole(n)] + rest.value)[1..] == rest.value;
    }
  }

  method Placeholders(tmpl: string) returns (r: Result<seq<string>, TemplateError>)
    ensures r == NamesOf([], Parse(tmpl))
  {
    var names: seq<string> := [];
    var seen: set<string> := {};
    var rest := tmpl;
    while true
      invariant NamesOf(names, Parse(rest)) == NamesOf([], Parse(tmpl))
      invariant forall n :: n in seen <==> n in names
      decreases |rest|
    {
      ghost var cut := FirstHole(rest);
      var open := IndexOf(rest, '{');
      if open == |rest| {
        AddNamesOfLiterals(names, rest, []);
        assert Literals(rest) + [] == Literals(rest);
        return if '}' in rest then Err(StrayClose) else Ok(names);
      }
      var after := rest[open + 1..];
      var close := IndexOf(after, '}');
      if close == |after| {
        return Err(Unclosed);
      }
      var name := after[..close];
      if name == "" {
        return Err(Empty);
      }
      assert cut == HoleAt(rest[..open], name, after[close + 1..]);
      NamesStep(names, cut.literal, name, Parse(cut.rest));
      if name !in seen {
        seen := seen + {name};
        names := names + [name];
      }
      rest := after[close + 1..];
    }
  }

  predicate Holes(tokens: seq<Token>, n: string) {
    Hole(n) in tokens
  }

  lemma {:induction false} AddNamesMembers(names: seq<string>, tokens: seq<Token>, n: string)
    ensures n in AddNames(names, tokens) <==> n in names || Holes(tokens, n)
    decreases |tokens|
  {
    if tokens != [] {
      var next := match tokens[0]
        case Lit(_) => names
        case Hole(m) => if m in names then names else names + [m];
      AddNamesMembers(next, tokens[1..], n);
      assert tokens == [tokens[0]] + tokens[1..];
    }
  }

  /** The template parses and uses only fields of its kind. */
  predicate Accepted(tmpl: string, kind: Kind) {
    Parse(tmpl).Ok? && forall t :: t in Parse(tmpl).value && t.Hole? ==> t.name in AllowedFields(kind)
  }

  method CheckTemplate(tmpl: string, kind: Kind) returns (e: Option<TemplateError>)
    ensures e == None <==> Accepted(tmpl, kind)
    ensures Parse(tmpl).Err? ==> e == Some(Parse(tmpl).error)
  {
    var names := Placeholders(tmpl);
    if names.Err? {
      return Some(names.error);
    }
    var k := 0;
    while k < |names.value|
      invariant 0 <= k <= |names.value|
      invariant forall j :: 0 <= j < k ==> names.value[j] in AllowedFields(kind)
    {
      var n := names.value[k];
      if n !in AllowedFields(kind) {
        AddNamesMembers([], Parse(tmpl).value, n);
        return Some(NotAllowed(n));
      }
      k := k + 1;
    }
    forall t | t in Parse(tmpl).value && t.Hole? ensures t.name in AllowedFields(kind) {
      AddNamesMembers([], Parse(tmpl).value, t.name);
    }
    return None;
  }

  /** The rewriting of Render: one ReplaceAll for each name, in the order given. */
  function RewriteAll(out: string, names: seq<string>, fields: Fields): Result<string, TemplateError>
    decreases |names|
  {
    if names == [] then Ok(out)
    else if names[0] !in fields then Err(Missing(names[0]))
    else RewriteAll(ReplaceAll(out, Placeholder(names[0]), fields[names[0]]), names[1..], fields)
  }

  /** The rewriting of Prefix, which passes over the names that are not known. */
  function RewriteKnown(out: string, names: seq<string>, fields: Fields): string
    decreases |names|
  {
    if names == [] then out
    else if names[0] !in fields then RewriteKnown(out, names[1..], fields)
    else RewriteKnown(ReplaceAll(out, Placeholder(names[0]), fields[names[0]]), names[1..], fields)
  }

  function BeforeBrace(s: string): string {
    s[..IndexOf(s, '{')]
  }

  function Segments(s: string): seq<string>
    decreases |s|
  {
    var i := IndexOf(s, '/');
    if i == |s| then [s] else [s[..i]] + Segments(s[i + 1..])
  }

  /** A C0 control byte or DEL, or the bytes of a C1 control character. */
  predicate HasControl(s: string) {
    || (exists i :: 0 <= i < |s| && ((s[i] as int) < 0x20 || s[i] as int == 0x7F))
    || (exists i :: 0 <= i < |s| - 1 && s[i] as int == 0xC2 && 0x80 <= s[i + 1] as int <= 0x9F)
  }

  predicate SafeName(name: string) {
    ".." !in Segments(name) && '?' !in name && '#' !in name && '\\' !in name && !HasControl(name)
  }

  /** The name is a path with a ".." segment. */
  ghost predicate HasDotDot(name: string) {
    exists x, y :: DotDotBetween(name, x, y)
  }

  predicate DotDotBetween(name: string, x: string, y: string) {
    name == x + ".." + y && (x == "" || x[|x| - 1] == '/') && (y == "" || y[0] == '/')
  }

  /** The name holds a question mark, a hash, a backslash, a byte below 20 hexadecimal or
  7F, or one of the control characters U+0080 to U+009F. */
  ghost predicate HasForbidden(name: string) {
    exists i :: 0 <= i < |name| &&
      (name[i] == '?' || name[i] == '#' || name[i] == '\\' || name[i] as int <= 31 || name[i] as int == 127
       || (name[i] as int == 194 && i + 1 < |name| && 128 <= name[i + 1] as int <= 159))
  }

  predicate DotDotAt(s: string, i: nat) {
    && i + 2 <= |s| && s[i] == '.' && s[i + 1] == '.'
    && (i == 0 || s[i - 1] == '/') && (i + 2 == |s| || s[i + 2] == '/')
  }

  lemma SegmentsStep(s: string)
    ensures var i := IndexOf(s, '/');
      Segments(s) == if i == |s| then [s] else [s[..i]] + Segments(s[i + 1..])
  {
    hide IndexOf;
  }

  lemma FirstSegment(s: string)
    ensures DotDotAt(s, 0) <==> s[..IndexOf(s, '/')] == ".."
  {
    hide IndexOf;
    var i := IndexOf(s, '/');
    var head := s[..i];
    assert forall k :: 0 <= k < i ==> s[k] == head[k] && s[k] != '/';
    if DotDotAt(s, 0) {
      assert i == 2 && head[0] == '.' && head[1] == '.';
    }
  }

  lemma LaterSegment(s: string, i: nat, k: nat)
    requires i < |s| && s[i] == '/' && i < k
    ensures DotDotAt(s, k) <==> DotDotAt(s[i + 1..], k - i - 1)
  {
    var rest, j := s[i + 1..], k - i - 1;
    if k + 2 <= |s| {
      assert rest[j] == s[k] && rest[j + 1] == s[k + 1];
      assert j > 0 ==> rest[j - 1] == s[k - 1];
      assert k + 2 < |s| ==> rest[j + 2] == s[k + 2];
    }
  }

  lemma InsideSegment(s: string, k: nat)
    requires 0 < k <= IndexOf(s, '/')
    ensures !DotDotAt(s, k)
  {
    hide IndexOf;
    assert k <= |s| && s[k - 1] == s[..IndexOf(s, '/')][k - 1];
  }

  lemma PastTheEnd(s: string, k: nat)
    requires k >= |s|
    ensures !DotDotAt(s, k)
  {
  }

  lemma {:induction false} SegmentAt(s: string)
    ensures ".." in Segments(s) <==> exists k: nat :: DotDotAt(s, k)
    decreases |s|
  {
    hide Segments, DotDotAt, IndexOf;
    var i := IndexOf(s, '/');
    SegmentsStep(s);
    FirstSegment(s);
    if i < |s| {
      var rest := s[i + 1..];
      SegmentAt(rest);
      if k: nat :| DotDotAt(rest, k) {
        LaterSegment(s, i, k + i + 1);
      }
    } else {
      assert s[..i] == s;
    }
    if k: nat :| DotDotAt(s, k) && k > 0 {
      if k <= i {
        InsideSegment(s, k);
      } else if i < |s| {
        LaterSegment(s, i, k);
      } else {
        PastTheEnd(s, k);
      }
    }
  }

  lemma BetweenIsAt(s: string, x: string, y: string)
    requires DotDotBetween(s, x, y)
    ensures DotDotAt(s, |x|)
  {
    assert s == x + ("." + ("." + y));
    assert s[|x|] == '.' && s[|x| + 1] == '.' && s[|x| + 2..] == y;
    assert x != "" ==> s[|x| - 1] == x[|x| - 1];
  }

  lemma AtIsBetween(s: string, k: nat)
    requires DotDotAt(s, k)
    ensures DotDotBetween(s, s[..k], s[k + 2..])
  {
    assert s == s[..k] + ".." + s[k + 2..];
  }

  lemma DotDotMeans(s: string)
    ensures HasDotDot(s) <==> exists k: nat :: DotDotAt(s, k)
  {
    hide DotDotBetween, DotDotAt;
    if x, y :| DotDotBetween(s, x, y) {
      BetweenIsAt(s, x, y);
    }
    if k: nat :| DotDotAt(s, k) {
      AtIsInside(s, k);
      AtIsBetween(s, k);
      assert DotDotBetween(s, s[..k], s[k + 2..]);
    }
  }

  lemma AtIsInside(s: string, k: nat)
    requires DotDotAt(s, k)
    ensures k + 2 <= |s|
  {
  }

  /** Which names are refused. */
  lemma UnsafeExactly(name: string)
    ensures !SafeName(name) <==> HasDotDot(name) || HasForbidden(name)
  {
    hide HasDotDot, Segments;
    SegmentAt(name);
    DotDotMeans(name);
    ForbiddenExactly(name);
  }

  lemma ForbiddenExactly(name: string)
    ensures '?' in name || '#' in name || '\\' in name || HasControl(name) <==> HasForbidden(name)
  {
    if c: char :| c in name && c in {'?', '#', '\\'} {
      var i :| 0 <= i < |name| && name[i] == c;
    }
  }

  function Checked(r: Result<string, TemplateError>): Result<string, TemplateError> {
    if r.Ok? && !SafeName(r.value) then Err(UnsafeName) else r
  }

  method Render(tmpl: string, fields: Fields) returns (r: Result<string, TemplateError>)
    ensures Parse(tmpl).Err? ==> r == Err(Parse(tmpl).error)
    ensures Parse(tmpl).Ok? ==> r == Checked(RewriteAll(tmpl, AddNames([], Parse(tmpl).value), fields))
    ensures Parse(tmpl).Ok? && Clean(Parse(tmpl).value) && BraceFree(fields) ==> r == Rendered(Parse(tmpl).value, fields)
    ensures Parse(tmpl).Ok? && Clean(Parse(tmpl).value) && BraceFree(fields) && Supplied(Parse(tmpl).value, fields) ==>
      var text := Substitute(Parse(tmpl).value, fields);
      if HasDotDot(text) || HasForbidden(text) then r.Err? else r == Ok(text)
  {
    hide Parse, SafeName, ReplaceAll, AddNames, HasDotDot, HasForbidden, Substitute;
    var names := Placeholders(tmpl);
    if names.Err? {
      return Err(names.error);
    }
    if Clean(Parse(tmpl).value) && BraceFree(fields) {
      RenderIsSimultaneous(tmpl, fields);
      UnsafeExactly(Substitute(Parse(tmpl).value, fields));
    }
    var out, k := tmpl, 0;
    while k < |names.value|
      invariant 0 <= k <= |names.value|
      invariant RewriteAll(out, names.value[k..], fields) == RewriteAll(tmpl, names.value, fields)
    {
      var n := names.value[k];
      assert names.value[k..][1..] == names.value[k + 1..];
      if n !in fields {
        return Err(Missing(n));
      }
      out := ReplaceAll(out, Placeholder(n), fields[n]);
      k := k + 1;
    }
    return Checked(Ok(out));
  }

  method Prefix(tmpl: string, fields: Fields) returns (r: Result<string, TemplateError>)
    ensures Parse(tmpl).Err? ==> r == Err(Parse(tmpl).error)
    ensures Parse(tmpl).Ok? ==> r == Ok(BeforeBrace(RewriteKnown(tmpl, AddNames([], Parse(tmpl).value), fields)))
    ensures Parse(tmpl).Ok? && Clean(Parse(tmpl).value) && BraceFree(fields) ==> r == Ok(Known(Parse(tmpl).value, fields))
  {
    hide Parse, ReplaceAll, AddNames;
    var names := Placeholders(tmpl);
    if names.Err? {
      return Err(names.error);
    }
    if Clean(Parse(tmpl).value) && BraceFree(fields) {
      PrefixIsKnown(tmpl, fields);
    }
    var out, k := tmpl, 0;
    while k < |names.value|
      invariant 0 <= k <= |names.value|
      invariant RewriteKnown(out, names.value[k..], fields) == RewriteKnown(tmpl, names.value, fields)
    {
      var n := names.value[k];
      assert names.value[k..][1..] == names.value[k + 1..];
      if n in fields {
        out := ReplaceAll(out, Placeholder(n), fields[n]);
      }
      k := k + 1;
    }
    return Ok(BeforeBrace(out));
  }

  // ----- the meaning -----

  /** Simultaneous substitution; a placeholder without a value stays. */
  function Substitute(tokens: seq<Token>, fields: Fields): string {
    if tokens == [] then ""
    else
      (match tokens[0]
       case Lit(c) => [c]
       case Hole(n) => if n in fields then fields[n] else Placeholder(n))
      + Substitute(tokens[1..], fields)
  }

  /** The text before the first placeholder without a value. */
  function Known(tokens: seq<Token>, fields: Fields): string {
    if tokens == [] then ""
    else
      match tokens[0]
      case Lit(c) => [c] + Known(tokens[1..], fields)
      case Hole(n) => if n in fields then fields[n] + Known(tokens[1..], fields) else ""
  }

  /** The first name without a value. */
  function FirstMissing(tokens: seq<Token>, fields: Fields): (r: Option<string>)
    ensures r.None? <==> forall n :: Hole(n) in tokens ==> n in fields
    ensures r.Some? ==> Hole(r.value) in tokens && r.value !in fields
  {
    if tokens == [] then None
    else if tokens[0].Hole? && tokens[0].name !in fields then Some(tokens[0].name)
    else FirstMissing(tokens[1..], fields)
  }

  /** What a successful Render is: the substitution, if every name has a value
  and the result is a safe object name. */
  function Rendered(tokens: seq<Token>, fields: Fields): Result<string, TemplateError> {
    var missing := FirstMissing(tokens, fields);
    if missing.Some? then Err(Missing(missing.value)) else Checked(Ok(Substitute(tokens, fields)))
  }

  /** Every placeholder has a value. */
  predicate Supplied(tokens: seq<Token>, fields: Fields) {
    forall t :: t in tokens && t.Hole? ==> t.name in fields
  }

  /** For an accepted template with every value supplied, rendering fails exactly when
  the substituted text has a ".." segment or a forbidden character. */
  lemma RefusedExactly(tmpl: string, kind: Kind, fields: Fields)
    requires Accepted(tmpl, kind) && Supplied(Parse(tmpl).value, fields)
    ensures var text := Substitute(Parse(tmpl).value, fields);
      Rendered(Parse(tmpl).value, fields) == if HasDotDot(text) || HasForbidden(text) then Err(UnsafeName) else Ok(text)
  {
    hide Parse, SafeName, HasDotDot, HasForbidden, Substitute;
    UnsafeExactly(Substitute(Parse(tmpl).value, fields));
  }

  /** No brace in a name and no opening brace in literal text. */
  predicate Clean(tokens: seq<Token>) {
    forall t :: t in tokens ==> CleanToken(t)
  }

  predicate CleanToken(t: Token) {
    match t
    case Lit(c) => c != '{'
    case Hole(n) => '{' !in n && '}' !in n
  }

  predicate BraceFree(fields: Fields) {
    forall n :: n in fields ==> '{' !in fields[n]
  }

  lemma ReplaceLiteral(c: char, s: string, n: string, v: string)
    requires c != '{'
    ensures ReplaceAll([c] + s, Placeholder(n), v) == [c] + ReplaceAll(s, Placeholder(n), v)
  {
    assert ([c] + s)[1..] == s;
    assert ([c] + s)[0] != Placeholder(n)[0];
  }

  /** No occurrence of p can start in v, whatever follows v. */
  predicate Inert(v: string, p: string) {
    forall i :: 0 <= i < |v| ==> !Meets(v[i..], p)
  }

  /** One of the two is a prefix of the other. */
  predicate Meets(s: string, p: string) {
    s <= p || p <= s
  }

  lemma BraceFreeIsInert(w: string, n: string)
    requires '{' !in w
    ensures Inert(w, Placeholder(n))
  {
    forall i | 0 <= i < |w| ensures !Meets(w[i..], Placeholder(n)) {
      assert w[i..][0] == w[i] && Placeholder(n)[0] == '{';
    }
  }

  lemma {:induction false} ReplaceText(w: string, s: string, n: string, v: string)
    requires Inert(w, Placeholder(n))
    ensures ReplaceAll(w + s, Placeholder(n), v) == w + ReplaceAll(s, Placeholder(n), v)
    decreases |w|
  {
    hide ReplaceAll, Placeholder;
    var p := Placeholder(n);
    PlaceholderStarts(n);
    if w == "" {
      assert w + s == s;
    } else {
      assert w[0..] == w && !Meets(w, p);
      NotAcross(w, s, p);
      ReplacePasses(w + s, p, v);
      assert (w + s)[1..] == w[1..] + s;
      InertTail(w, p);
      ReplaceText(w[1..], s, n, v);
    }
  }

  lemma PlaceholderStarts(n: string)
    ensures Placeholder(n) != "" && Placeholder(n)[0] == '{'
  {
  }

  lemma NotAcross(w: string, s: string, p: string)
    requires !Meets(w, p)
    ensures !(p <= w + s)
  {
    assert |p| <= |w| ==> (w + s)[..|p|] == w[..|p|];
    assert |p| > |w| ==> (w + s)[..|w|] == w;
  }

  lemma InertTail(w: string, p: string)
    requires w != "" && Inert(w, p)
    ensures Inert(w[1..], p)
  {
    forall i | 0 <= i < |w| - 1 ensures !Meets(w[1..][i..], p) {
      assert w[1..][i..] == w[i + 1..];
    }
  }

  lemma ReplaceHole(s: string, n: string, v: string)
    ensures ReplaceAll(Placeholder(n) + s, Placeholder(n), v) == v + ReplaceAll(s, Placeholder(n), v)
  {
    assert (Placeholder(n) + s)[|Placeholder(n)|..] == s;
  }

  lemma OtherHoleDiffers(m: string, s: string, n: string)
    requires m != n && '}' !in m && '}' !in n
    ensures !(Placeholder(n) <= Placeholder(m) + s)
  {
    var w, p := Placeholder(m) + s, Placeholder(n);
    if |n| < |m| {
      assert p[|n| + 1] == '}' && w[|n| + 1] == m[|n|];
    } else if |n| > |m| {
      assert w[|m| + 1] == '}' && p[|m| + 1] == n[|m|];
    } else {
      var i :| 0 <= i < |m| && m[i] != n[i];
      assert p[i + 1] == n[i] && w[i + 1] == m[i];
    }
  }

  /** A placeholder is not taken for another one. */
  lemma ReplaceOtherHole(m: string, s: string, n: string, v: string)
    requires m != n && '{' !in m && '}' !in m && '}' !in n
    ensures ReplaceAll(Placeholder(m) + s, Placeholder(n), v) == Placeholder(m) + ReplaceAll(s, Placeholder(n), v)
  {
    hide ReplaceAll;
    var w := Placeholder(m) + s;
    var p := Placeholder(n);
    OtherHoleDiffers(m, s, n);
    ReplacePasses(w, p, v);
    assert w[1..] == (m + "}") + s;
    BraceFreeIsInert(m + "}", n);
    ReplaceText(m + "}", s, n, v);
    assert [w[0]] + ((m + "}") + ReplaceAll(s, p, v)) == Placeholder(m) + ReplaceAll(s, p, v);
  }

  /** One ReplaceAll gives one more name its value. */
  lemma {:induction false} ReplaceSubstitutes(tokens: seq<Token>, fields: Fields, n: string, v: string)
    requires Clean(tokens) && '}' !in n && n !in fields
    requires forall m :: m in fields ==> Inert(fields[m], Placeholder(n))
    ensures ReplaceAll(Substitute(tokens, fields), Placeholder(n), v) == Substitute(tokens, fields[n := v])
    decreases |tokens|
  {
    hide ReplaceAll;
    if tokens == [] {
      ReplaceShort("", Placeholder(n), v);
    } else {
      var s := Substitute(tokens[1..], fields);
      assert CleanToken(tokens[0]);
      ReplaceSubstitutes(tokens[1..], fields, n, v);
      match tokens[0] {
        case Lit(c) => ReplaceLiteral(c, s, n, v);
        case Hole(m) =>
          if m in fields {
            ReplaceText(fields[m], s, n, v);
          } else if m == n {
            ReplaceHole(s, n, v);
          } else {
            ReplaceOtherHole(m, s, n, v);
          }
      }
    }
  }

  /** Names that do not occur need no value. */
  lemma {:induction false} SubstituteAgrees(tokens: seq<Token>, f: Fields, g: Fields)
    requires forall n :: Hole(n) in tokens ==> Agree(f, g, n)
    ensures Substitute(tokens, f) == Substitute(tokens, g)
    decreases |tokens|
  {
    if tokens != [] {
      SubstituteAgrees(tokens[1..], f, g);
      if tokens[0].Hole? {
        assert tokens[0] == Hole(tokens[0].name) && Agree(f, g, tokens[0].name);
      }
    }
  }

  predicate Agree(f: Fields, g: Fields, n: string) {
    (n in f <==> n in g) && (n in f ==> f[n] == g[n])
  }

  lemma {:induction false} SubstituteNothing(tokens: seq<Token>)
    ensures Substitute(tokens, map[]) == Text(tokens)
  {
    if tokens != [] {
      SubstituteNothing(tokens[1..]);
    }
  }

  function Restrict(fields: Fields, names: set<string>): Fields {
    map n | n in fields && n in names :: fields[n]
  }

  predicate ValidNames(names: seq<string>) {
    forall n :: n in names ==> '}' !in n
  }

  /** Rewriting in any order, with any repetition, gives the names their values. */
  lemma {:induction false} RewriteSubstitutes(tokens: seq<Token>, done: set<string>, names: seq<string>, fields: Fields)
    requires Clean(tokens) && BraceFree(fields) && ValidNames(names)
    ensures RewriteKnown(Substitute(tokens, Restrict(fields, done)), names, fields) ==
      Substitute(tokens, Restrict(fields, done + set n | n in names))
    decreases |names|
  {
    hide Substitute, ReplaceAll, Clean;
    var f := Restrict(fields, done);
    if names == [] {
      assert done + (set n | n in names) == done;
    } else {
      var n := names[0];
      assert done + (set m | m in names) == done + {n} + set m | m in names[1..];
      assert ValidNames(names[1..]);
      RewriteSubstitutes(tokens, done + {n}, names[1..], fields);
      if n in fields {
        if n in done {
          assert Restrict(fields, done + {n}) == f;
          ReplaceKeeps(tokens, f, n, fields[n]);
        } else {
          assert Restrict(fields, done + {n}) == f[n := fields[n]];
          forall m | m in f ensures Inert(f[m], Placeholder(n)) {
            BraceFreeIsInert(f[m], n);
          }
          ReplaceSubstitutes(tokens, f, n, fields[n]);
        }
      } else {
        assert Restrict(fields, done + {n}) == f;
      }
    }
  }

  lemma {:induction false} ReplaceKeeps(tokens: seq<Token>, fields: Fields, n: string, v: string)
    requires Clean(tokens) && BraceFree(fields) && '}' !in n && n in fields
    ensures ReplaceAll(Substitute(tokens, fields), Placeholder(n), v) == Substitute(tokens, fields)
    decreases |tokens|
  {
    hide ReplaceAll;
    if tokens == [] {
      ReplaceShort("", Placeholder(n), v);
    } else {
      var s := Substitute(tokens[1..], fields);
      assert CleanToken(tokens[0]);
      ReplaceKeeps(tokens[1..], fields, n, v);
      match tokens[0] {
        case Lit(c) => ReplaceLiteral(c, s, n, v);
        case Hole(m) =>
          if m in fields {
            BraceFreeIsInert(fields[m], n);
            ReplaceText(fields[m], s, n, v);
          } else {
            ReplaceOtherHole(m, s, n, v);
          }
      }
    }
  }

  /** When every name has a value, the two rewritings agree. */
  lemma {:induction false} RewriteAllKnown(out: string, names: seq<string>, fields: Fields)
    ensures (forall n :: n in names ==> n in fields) ==>
      RewriteAll(out, names, fields) == Ok(RewriteKnown(out, names, fields))
    decreases |names|
  {
    hide ReplaceAll;
    if names != [] && names[0] in fields {
      RewriteAllKnown(ReplaceAll(out, Placeholder(names[0]), fields[names[0]]), names[1..], fields);
    }
  }

  /** Sequential rewriting of a template is simultaneous substitution, in
  whatever order the names are taken and however often. */
  lemma RewriteIsSimultaneous(tokens: seq<Token>, names: seq<string>, fields: Fields)
    requires Clean(tokens) && BraceFree(fields) && ValidNames(names)
    requires forall n :: Hole(n) in tokens ==> n in names
    ensures RewriteKnown(Text(tokens), names, fields) == Substitute(tokens, fields)
    ensures (forall n :: n in names ==> n in fields) ==>
      RewriteAll(Text(tokens), names, fields) == Ok(Substitute(tokens, fields))
  {
    hide RewriteKnown, RewriteAll, Substitute, Text;
    SubstituteNothing(tokens);
    assert Restrict(fields, {}) == map[];
    RewriteSubstitutes(tokens, {}, names, fields);
    SubstituteAgrees(tokens, Restrict(fields, {} + set n | n in names), fields);
    RewriteAllKnown(Text(tokens), names, fields);
  }

  // ----- parsing is exact -----

  lemma {:induction false} TextAppend(x: seq<Token>, y: seq<Token>)
    ensures Text(x + y) == Text(x) + Text(y)
    decreases |x|
  {
    if x == [] {
      assert x + y == y;
    } else {
      assert (x + y)[1..] == x[1..] + y;
      TextAppend(x[1..], y);
    }
  }

  lemma {:induction false} LiteralsText(s: string)
    ensures Text(Literals(s)) == s
    ensures forall t :: t in Literals(s) ==> t.Lit? && t.c in s
    ensures |Literals(s)| == |s|
  {
    if s != "" {
      LiteralsText(s[1..]);
    }
  }

  lemma TextAfter(literal: string, name: string, tokens: seq<Token>)
    ensures Text(Literals(literal) + [Hole(name)] + tokens) == literal + Placeholder(name) + Text(tokens)
  {
    hide Text, Literals;
    LiteralsText(literal);
    HoleText(name);
    TextAppend(Literals(literal), [Hole(name)]);
    TextAppend(Literals(literal) + [Hole(name)], tokens);
  }

  /** The tokens of an accepted template spell it. */
  lemma {:induction false} ParseSpells(tmpl: string)
    requires Parse(tmpl).Ok?
    ensures Text(Parse(tmpl).value) == tmpl
    ensures forall t :: t in Parse(tmpl).value ==> ValidToken(t)
    decreases |tmpl|
  {
    hide Text, Literals, FirstHole;
    match FirstHole(tmpl) {
      case NoHole =>
        LiteralsText(tmpl);
      case HoleAt(literal, name, rest) =>
        ParseSpells(rest);
        TextAfter(literal, name, Parse(rest).value);
        LiteralsText(literal);
    }
  }

  /** No literal closing brace after the last placeholder. */
  predicate NoLateClose(tokens: seq<Token>) {
    forall k :: 0 <= k < |tokens| && tokens[k] == Lit('}') ==> Holed(tokens[k + 1..])
  }

  predicate Holed(tokens: seq<Token>) {
    exists t :: t in tokens && t.Hole?
  }

  lemma {:induction false} LiteralPart(tokens: seq<Token>) returns (s: string, rest: seq<Token>)
    ensures tokens == Literals(s) + rest
    ensures rest == [] || rest[0].Hole?
    ensures forall c :: c in s ==> Lit(c) in tokens
    ensures |rest| + |s| == |tokens|
    decreases |tokens|
  {
    if tokens == [] || tokens[0].Hole? {
      return "", tokens;
    }
    var t;
    t, rest := LiteralPart(tokens[1..]);
    s := [tokens[0].c] + t;
    assert Literals(s) == [tokens[0]] + Literals(t);
  }

  lemma FirstHoleOf(s: string, name: string, tail: string)
    requires '{' !in s && '}' !in name && name != ""
    ensures FirstHole(s + Placeholder(name) + tail) == HoleAt(s, name, tail)
  {
    var tmpl := s + Placeholder(name) + tail;
    var after := name + ['}'] + tail;
    assert tmpl == s + ['{'] + after;
    IndexOfAt(s, '{', after);
    assert tmpl[|s| + 1..] == after && tmpl[..|s|] == s;
    IndexOfAt(name, '}', tail);
    assert after[..|name|] == name && after[|name| + 1..] == tail;
  }

  lemma LateCloseInRest(s: string, rest: seq<Token>)
    requires WellFormed(Literals(s) + rest)
    ensures rest != [] ==> WellFormed(rest[1..])
    ensures rest == [] ==> '}' !in s
  {
    hide Literals;
    var tokens := Literals(s) + rest;
    LiteralsText(s);
    if rest != [] {
      assert rest[1..] == tokens[|s| + 1..];
      assert forall t :: t in rest[1..] ==> t in tokens;
      forall k | 0 <= k < |rest[1..]| && rest[1..][k] == Lit('}') ensures Holed(rest[1..][k + 1..]) {
        assert tokens[|s| + 1 + k] == Lit('}');
        assert tokens[|s| + 1 + k + 1..] == rest[1..][k + 1..];
      }
    } else {
      assert tokens == Literals(s);
      LiteralsEndOpen(s);
    }
  }

  lemma LiteralsEndOpen(s: string)
    requires NoLateClose(Literals(s))
    ensures '}' !in s
  {
    hide Literals;
    var k := IndexOf(s, '}');
    LiteralsText(s);
    if k < |s| {
      assert !Holed(Literals(s)[k + 1..]);
      LiteralAt(s, k);
    }
  }

  lemma {:induction false} LiteralAt(s: string, k: nat)
    requires k < |s|
    ensures |Literals(s)| == |s| && Literals(s)[k] == Lit(s[k])
  {
    LiteralsText(s);
    if k > 0 {
      LiteralAt(s[1..], k - 1);
    }
  }

  /** Parsing reads back every well-formed token list from its text. */
  lemma {:induction false} ParseReadsBack(tokens: seq<Token>)
    requires WellFormed(tokens)
    ensures Parse(Text(tokens)) == Ok(tokens)
    decreases |tokens|
  {
    hide Literals, Text, FirstHole, NoLateClose;
    var s, rest := LiteralPart(tokens);
    LateCloseInRest(s, rest);
    LiteralsText(s);
    assert '{' !in s by {
      assert '{' in s ==> ValidToken(Lit('{'));
    }
    if rest == [] {
      assert tokens == Literals(s);
      FirstHoleNone(s);
    } else {
      var name, tail := rest[0].name, rest[1..];
      assert ValidToken(rest[0]);
      assert tokens == Literals(s) + [Hole(name)] + tail;
      TextAfter(s, name, tail);
      FirstHoleOf(s, name, Text(tail));
      ParseReadsBack(tail);
    }
  }

  lemma FirstHoleNone(s: string)
    requires '{' !in s && '}' !in s
    ensures FirstHole(s) == NoHole
  {
  }

  /** The tokens of an accepted template are well formed. */
  lemma {:induction false} ParseIsWellFormed(tmpl: string)
    requires Parse(tmpl).Ok?
    ensures WellFormed(Parse(tmpl).value)
    decreases |tmpl|
  {
    hide Literals, FirstHole;
    ParseSpells(tmpl);
    match FirstHole(tmpl) {
      case NoHole =>
        LiteralsText(tmpl);
        assert Lit('}') !in Literals(tmpl);
      case HoleAt(literal, name, rest) =>
        ParseIsWellFormed(rest);
        NoLateCloseAfter(literal, name, Parse(rest).value);
    }
  }

  lemma NoLateCloseAfter(literal: string, name: string, tail: seq<Token>)
    requires NoLateClose(tail)
    ensures NoLateClose(Literals(literal) + [Hole(name)] + tail)
  {
    hide Literals;
    LiteralsText(literal);
    var tokens := Literals(literal) + [Hole(name)] + tail;
    var n := |literal|;
    forall k | 0 <= k < |tokens| && tokens[k] == Lit('}') ensures Holed(tokens[k + 1..]) {
      if k < n {
        assert Hole(name) == tokens[k + 1..][n - k - 1];
      } else {
        assert tail[k - n - 1] == Lit('}');
        assert tokens[k + 1..] == tail[k - n..];
      }
    }
  }

  /** A template parses exactly when it is the text of well-formed tokens, and
  then it is the text of no others. */
  lemma ParseIsExact(tmpl: string, tokens: seq<Token>)
    ensures Parse(tmpl) == Ok(tokens) <==> WellFormed(tokens) && Text(tokens) == tmpl
  {
    hide Parse, Text, WellFormed;
    if Parse(tmpl) == Ok(tokens) {
      ParseSpells(tmpl);
      ParseIsWellFormed(tmpl);
    }
    if WellFormed(tokens) && Text(tokens) == tmpl {
      ParseReadsBack(tokens);
    }
  }

  lemma HoleText(name: string)
    ensures Text([Hole(name)]) == Placeholder(name)
  {
    assert [Hole(name)][1..] == [];
  }

  /** CheckTemplate's templates are clean: the field names have no brace. */
  lemma AcceptedIsClean(tmpl: string, kind: Kind)
    requires Accepted(tmpl, kind)
    ensures Clean(Parse(tmpl).value)
  {
    hide Parse;
    var tokens := Parse(tmpl).value;
    ParseSpells(tmpl);
    forall t | t in tokens ensures CleanToken(t) {
      assert ValidToken(t);
    }
  }

  lemma OneHoleParses(n: string)
    requires n != "" && '}' !in n
    ensures Parse("{" + n + "}") == Ok([Hole(n)])
  {
    hide Parse;
    ParseNothing();
    ParseHole("", n, "");
    assert "" + Placeholder(n) + "" == "{" + n + "}";
    assert Literals("") + [Hole(n)] + [] == [Hole(n)];
  }

  /** The placeholders of each kind. */
  lemma FieldsOfKinds(n: string)
    requires n != "" && '}' !in n
    ensures Accepted("{" + n + "}", ArchiveDump) <==> n == "date" || n == "hour"
    ensures Accepted("{" + n + "}", PrecomputedBlocks) <==> n == "height" || n == "state_hash"
    ensures Accepted("{" + n + "}", DaemonConfig) <==> n == "ref"
    ensures !Accepted("{" + n + "}", GenesisConfig)
  {
    hide Parse;
    OneHoleParses(n);
    assert Hole(n) in [Hole(n)];
  }

  /** Render is one simultaneous substitution. */
  lemma RenderIsSimultaneous(tmpl: string, fields: Fields)
    requires Parse(tmpl).Ok? && Clean(Parse(tmpl).value) && BraceFree(fields)
    ensures Checked(RewriteAll(tmpl, AddNames([], Parse(tmpl).value), fields)) == Rendered(Parse(tmpl).value, fields)
  {
    hide Parse, RewriteAll, Substitute, Text, SafeName;
    var tokens := Parse(tmpl).value;
    var names := AddNames([], tokens);
    ParseSpells(tmpl);
    NamesAreHoles(tokens);
    if forall n :: Hole(n) in tokens ==> n in fields {
      RewriteIsSimultaneous(tokens, names, fields);
    } else {
      FirstMissingName([], tokens, tmpl, fields);
    }
  }

  lemma NamesAreHoles(tokens: seq<Token>)
    requires Clean(tokens)
    ensures forall n :: n in AddNames([], tokens) <==> Hole(n) in tokens
    ensures ValidNames(AddNames([], tokens))
  {
    hide AddNames;
    forall n ensures n in AddNames([], tokens) <==> Hole(n) in tokens {
      AddNamesMembers([], tokens, n);
    }
    forall n | n in AddNames([], tokens) ensures '}' !in n {
      assert CleanToken(Hole(n));
    }
  }

  lemma {:induction false} RewriteAllStops(out: string, names: seq<string>, k: nat, fields: Fields)
    requires k < |names| && names[k] !in fields
    requires forall j :: 0 <= j < k ==> names[j] in fields
    ensures RewriteAll(out, names, fields) == Err(Missing(names[k]))
    decreases k
  {
    hide ReplaceAll;
    if k > 0 {
      RewriteAllStops(ReplaceAll(out, Placeholder(names[0]), fields[names[0]]), names[1..], k - 1, fields);
    }
  }

  /** The name reported missing is that of the first placeholder without a value. */
  lemma {:induction false} FirstMissingName(names: seq<string>, tokens: seq<Token>, out: string, fields: Fields)
    requires forall n :: n in names ==> n in fields
    requires FirstMissing(tokens, fields).Some?
    ensures RewriteAll(out, AddNames(names, tokens), fields) == Err(Missing(FirstMissing(tokens, fields).value))
    decreases |tokens|
  {
    hide ReplaceAll, RewriteAll;
    match tokens[0] {
      case Lit(_) => FirstMissingName(names, tokens[1..], out, fields);
      case Hole(n) =>
        if n in fields {
          FirstMissingName(if n in names then names else names + [n], tokens[1..], out, fields);
        } else {
          AddNamesExtends(names + [n], tokens[1..]);
          RewriteAllStops(out, AddNames(names, tokens), |names|, fields);
        }
    }
  }

  lemma {:induction false} AddNamesExtends(names: seq<string>, tokens: seq<Token>)
    ensures names <= AddNames(names, tokens)
    decreases |tokens|
  {
    if tokens != [] {
      match tokens[0] {
        case Lit(_) => AddNamesExtends(names, tokens[1..]);
        case Hole(n) => AddNamesExtends(if n in names then names else names + [n], tokens[1..]);
      }
    }
  }

  // ----- Prefix and Render agree -----

  /** Cutting at the first brace left is cutting at the first unknown placeholder. */
  lemma {:induction false} BeforeBraceIsKnown(tokens: seq<Token>, fields: Fields)
    requires Clean(tokens) && BraceFree(fields)
    ensures BeforeBrace(Substitute(tokens, fields)) == Known(tokens, fields)
    decreases |tokens|
  {
    if tokens != [] {
      var rest := Substitute(tokens[1..], fields);
      assert CleanToken(tokens[0]);
      BeforeBraceIsKnown(tokens[1..], fields);
      match tokens[0] {
        case Lit(c) => BeforeBraceSkips([c], rest);
        case Hole(n) =>
          if n in fields {
            BeforeBraceSkips(fields[n], rest);
          }
      }
    }
  }

  lemma {:induction false} BeforeBraceSkips(w: string, s: string)
    requires '{' !in w
    ensures BeforeBrace(w + s) == w + BeforeBrace(s)
    decreases |w|
  {
    if w == "" {
      assert w + s == s;
    } else {
      assert (w + s)[1..] == w[1..] + s;
      BeforeBraceSkips(w[1..], s);
    }
  }

  lemma PrefixIsKnown(tmpl: string, fields: Fields)
    requires Parse(tmpl).Ok? && Clean(Parse(tmpl).value) && BraceFree(fields)
    ensures BeforeBrace(RewriteKnown(tmpl, AddNames([], Parse(tmpl).value), fields)) == Known(Parse(tmpl).value, fields)
  {
    hide Parse, RewriteKnown, Substitute, Text, Known;
    var tokens := Parse(tmpl).value;
    ParseSpells(tmpl);
    NamesAreHoles(tokens);
    RewriteIsSimultaneous(tokens, AddNames([], tokens), fields);
    BeforeBraceIsKnown(tokens, fields);
  }

  predicate Extends(some: Fields, more: Fields) {
    forall n :: n in some ==> n in more && more[n] == some[n]
  }

  /** The prefix is a prefix of every rendering that extends its fields. */
  lemma {:induction false} KnownIsPrefix(tokens: seq<Token>, some: Fields, more: Fields)
    requires Extends(some, more)
    ensures Known(tokens, some) <= Substitute(tokens, more)
    decreases |tokens|
  {
    if tokens != [] {
      KnownIsPrefix(tokens[1..], some, more);
    }
  }

  /** Prefix and Render agree on every template that CheckTemplate accepts. */
  lemma PrefixOfRender(tmpl: string, kind: Kind, some: Fields, more: Fields)
    requires Accepted(tmpl, kind) && BraceFree(some) && BraceFree(more) && Extends(some, more)
    requires Rendered(Parse(tmpl).value, more).Ok?
    ensures Known(Parse(tmpl).value, some) <= Rendered(Parse(tmpl).value, more).value
  {
    hide Parse, Known, Substitute;
    KnownIsPrefix(Parse(tmpl).value, some, more);
  }

  // ----- values with an opening brace -----

  ghost predicate Unlike(names: seq<string>) {
    forall i, j :: 0 <= i < j < |names| ==> names[i] != names[j]
  }

  lemma {:induction false} AddNamesUnlike(names: seq<string>, tokens: seq<Token>)
    requires Unlike(names)
    ensures Unlike(AddNames(names, tokens))
    decreases |tokens|
  {
    if tokens != [] {
      match tokens[0] {
        case Lit(_) => AddNamesUnlike(names, tokens[1..]);
        case Hole(n) => AddNamesUnlike(if n in names then names else names + [n], tokens[1..]);
      }
    }
  }

  /** No value can be part of the placeholder of another name. */
  ghost predicate Apart(fields: Fields, names: set<string>) {
    forall m, n :: m in fields && m in names && n in names && m != n ==> Inert(fields[m], Placeholder(n))
  }

  /** Rewriting each name once gives the names their values. */
  lemma {:induction false} RewriteApart(tokens: seq<Token>, done: set<string>, names: seq<string>, fields: Fields)
    requires Clean(tokens) && ValidNames(names) && Unlike(names)
    requires forall n :: n in names ==> n !in done
    requires Apart(fields, done + set n | n in names)
    ensures RewriteKnown(Substitute(tokens, Restrict(fields, done)), names, fields) ==
      Substitute(tokens, Restrict(fields, done + set n | n in names))
    decreases |names|
  {
    hide Substitute, ReplaceAll, Clean, Inert;
    var f := Restrict(fields, done);
    if names == [] {
      assert done + (set n | n in names) == done;
    } else {
      var n := names[0];
      assert done + (set m | m in names) == done + {n} + set m | m in names[1..];
      assert forall m :: m in names[1..] ==> m in names && m != n;
      RewriteApart(tokens, done + {n}, names[1..], fields);
      if n in fields {
        assert Restrict(fields, done + {n}) == f[n := fields[n]];
        ReplaceSubstitutes(tokens, f, n, fields[n]);
      } else {
        assert Restrict(fields, done + {n}) == f;
      }
    }
  }

  /** Sequential rewriting is simultaneous substitution for values with braces too,
  as long as no value can be part of another placeholder. */
  lemma RewriteIsSimultaneousApart(tmpl: string, fields: Fields)
    requires Parse(tmpl).Ok? && Clean(Parse(tmpl).value)
    requires Apart(fields, set n | n in AddNames([], Parse(tmpl).value))
    ensures RewriteKnown(tmpl, AddNames([], Parse(tmpl).value), fields) == Substitute(Parse(tmpl).value, fields)
  {
    hide RewriteKnown, Substitute, Text, Parse, AddNames, Apart;
    var tokens := Parse(tmpl).value;
    var names := AddNames([], tokens);
    ParseSpells(tmpl);
    NamesAreHoles(tokens);
    AddNamesUnlike([], tokens);
    SubstituteNothing(tokens);
    assert Restrict(fields, {}) == map[];
    assert {} + (set n | n in names) == set n | n in names;
    RewriteApart(tokens, {}, names, fields);
    SubstituteAgrees(tokens, Restrict(fields, {} + set n | n in names), fields);
  }

  /** With the value v for the name n, and brace-free values for the other names,
  every template of the kind is rewritten as simultaneous substitution has it. */
  ghost predicate NeverRewritten(kind: Kind, n: string, v: string) {
    forall tmpl, fields | Accepted(tmpl, kind) && OneWithBraces(fields, n, v) ::
      RewriteKnown(tmpl, AddNames([], Parse(tmpl).value), fields) == Substitute(Parse(tmpl).value, fields)
  }

  ghost predicate OneWithBraces(fields: Fields, n: string, v: string) {
    n in fields && fields[n] == v && forall m :: m in fields && m != n ==> '{' !in fields[m]
  }

  /** How the code's rewriting shortens a text that has p, then p again. */
  lemma {:induction false} DeletingShortens(s: string, p: string)
    requires p != ""
    ensures |ReplaceAll(s, p, "")| <= |s|
    decreases |s|
  {
    if |s| >= |p| {
      DeletingShortens(if p <= s then s[|p|..] else s[1..], p);
    }
  }

  lemma {:induction false} DeletingLast(x: string, p: string)
    requires p != ""
    ensures |ReplaceAll(x + p, p, "")| <= |x|
    decreases |x|
  {
    var s := x + p;
    if p <= s {
      DeletingShortens(s[|p|..], p);
    } else {
      assert x != "" by {
        assert "" + p == p;
      }
      assert s[1..] == x[1..] + p;
      ReplacePasses(s, p, "");
      DeletingLast(x[1..], p);
    }
  }

  lemma {:induction false} DeletingTwo(w: string, p: string, i: nat)
    requires p != "" && i + |p| <= |w| && p <= w[i..]
    ensures |ReplaceAll(w + p, p, "")| <= |w| - |p|
    decreases |w|
  {
    var s := w + p;
    assert w[0..] == w && s[..|p|] == w[..|p|];
    if p <= s {
      assert s[|p|..] == w[|p|..] + p;
      DeletingLast(w[|p|..], p);
    } else {
      assert i > 0;
      assert s[1..] == w[1..] + p && w[1..][i - 1..] == w[i..];
      ReplacePasses(s, p, "");
      DeletingTwo(w[1..], p, i - 1);
    }
  }

  /** What makes a placeholder for m of the end of v, from i on. */
  function Completion(v: string, m: string, i: nat): string
    requires i < |v|
  {
    if |Placeholder(m)| <= |v| - i then "" else Placeholder(m)[|v| - i..]
  }

  lemma CompletionCompletes(v: string, m: string, i: nat)
    requires i < |v| && Meets(v[i..], Placeholder(m)) && '{' !in m
    ensures '{' !in Completion(v, m, i)
    ensures Placeholder(m) <= (v + Completion(v, m, i))[i..]
  {
    var p, tail, c := Placeholder(m), v[i..], Completion(v, m, i);
    assert (v + c)[i..] == tail + c;
    if |p| <= |tail| {
      assert tail + c == tail;
    } else {
      assert tail + c == p;
    }
  }

  lemma ParseHole(literal: string, n: string, rest: string)
    requires '{' !in literal && '}' !in n && n != "" && Parse(rest).Ok?
    ensures Parse(literal + Placeholder(n) + rest) == Ok(Literals(literal) + [Hole(n)] + Parse(rest).value)
  {
    hide FirstHole, Literals, Placeholder;
    FirstHoleOf(literal, n, rest);
  }

  /** A template that is not accepted: with a closing brace and no opening one after it,
  with an opening brace that is not closed, or with an empty placeholder. */
  lemma ParseErrors(literal: string, after: string)
    requires '{' !in literal
    ensures '}' in literal ==> Parse(literal) == Err(StrayClose)
    ensures '}' !in after ==> Parse(literal + "{" + after) == Err(Unclosed)
    ensures Parse(literal + "{}" + after) == Err(Empty)
  {
    IndexOfAt(literal, '{', after);
    var open, empty := literal + ['{'] + after, literal + ['{'] + ("}" + after);
    assert literal + "{" + after == open && literal + "{}" + after == empty;
    assert open[|literal| + 1..] == after;
    IndexOfAt(literal, '{', "}" + after);
    assert empty[|literal| + 1..] == "}" + after;
    IndexOfAt("", '}', after);
    assert "" + ['}'] + after == "}" + after;
  }

  /** An error after a placeholder is the error of the whole template. */
  lemma LaterErrors(literal: string, n: string, rest: string)
    requires '{' !in literal && '}' !in n && n != "" && Parse(rest).Err?
    ensures Parse(literal + "{" + n + "}" + rest) == Err(Parse(rest).error)
  {
    hide FirstHole, Literals;
    assert literal + "{" + n + "}" + rest == literal + Placeholder(n) + rest;
    FirstHoleOf(literal, n, rest);
  }

  lemma TwoHolesParse(n: string, c: string, m: string)
    requires n != "" && m != "" && '}' !in n + m && '{' !in c
    ensures Parse(Placeholder(n) + c + Placeholder(m)) == Ok([Hole(n)] + Literals(c) + [Hole(m)])
  {
    hide FirstHole, Placeholder, Literals, Parse;
    var p, q := Placeholder(n), Placeholder(m);
    ParseNothing();
    ParseHole(c, m, "");
    assert c + q + "" == c + q;
    var tail := Literals(c) + [Hole(m)];
    assert tail + [] == tail;
    ParseHole("", n, c + q);
    assert "" + p + (c + q) == p + c + q;
    NoLiterals();
    assert [] + [Hole(n)] + tail == [Hole(n)] + Literals(c) + [Hole(m)];
  }

  lemma ParseNothing()
    ensures Parse("") == Ok([])
  {
    FirstHoleNone("");
  }

  lemma NoLiterals()
    ensures Literals("") == []
  {
  }

  lemma {:induction false} NamesOfTwoHoles(n: string, c: string, m: string)
    requires n != m
    ensures AddNames([], [Hole(n)] + Literals(c) + [Hole(m)]) == [n, m]
  {
    var rest := Literals(c) + [Hole(m)];
    assert [Hole(n)] + Literals(c) + [Hole(m)] == [Hole(n)] + rest;
    assert ([Hole(n)] + rest)[1..] == rest && [Hole(m)][1..] == [];
    AddNamesOfLiterals([n], c, [Hole(m)]);
    assert [] + [n] == [n] && [n] + [m] == [n, m];
  }

  lemma SubstituteTwoHoles(n: string, c: string, m: string, fields: Fields)
    requires n in fields && m in fields
    ensures Substitute([Hole(n)] + Literals(c) + [Hole(m)], fields) == fields[n] + c + fields[m]
  {
    hide Literals;
    var rest := Literals(c) + [Hole(m)];
    assert [Hole(n)] + Literals(c) + [Hole(m)] == [Hole(n)] + rest;
    assert ([Hole(n)] + rest)[1..] == rest;
    SubstituteLiterals(c, [Hole(m)], fields);
    assert [Hole(m)][1..] == [];
    assert Substitute([Hole(m)], fields) == fields[m] + "";
  }

  lemma {:induction false} SubstituteLiterals(c: string, tokens: seq<Token>, fields: Fields)
    ensures Substitute(Literals(c) + tokens, fields) == c + Substitute(tokens, fields)
    decreases |c|
  {
    hide Substitute, Literals;
    if c == "" {
      NoLiterals();
      assert Literals(c) + tokens == tokens;
    } else {
      var all, s := Literals(c) + tokens, Substitute(tokens, fields);
      LiteralsStep(c);
      assert all[0] == Lit(c[0]) && all[1..] == Literals(c[1..]) + tokens;
      SubstituteLiterals(c[1..], tokens, fields);
      SubstituteLiteral(all, fields);
      assert [c[0]] + (c[1..] + s) == c + s;
    }
  }

  lemma LiteralsStep(c: string)
    requires c != ""
    ensures Literals(c) == [Lit(c[0])] + Literals(c[1..])
  {
  }

  lemma SubstituteLiteral(tokens: seq<Token>, fields: Fields)
    requires tokens != [] && tokens[0].Lit?
    ensures Substitute(tokens, fields) == [tokens[0].c] + Substitute(tokens[1..], fields)
  {
  }

  /** In {n}, the completion, {m}, the completed placeholder is deleted with the
  other one. */
  lemma CompletedIsRewritten(n: string, m: string, v: string, i: nat)
    requires n != m && '{' !in n + m && '}' !in n + m && n != "" && m != ""
    requires i < |v| && Meets(v[i..], Placeholder(m))
    ensures var tmpl := Placeholder(n) + Completion(v, m, i) + Placeholder(m);
      && Parse(tmpl) == Ok([Hole(n)] + Literals(Completion(v, m, i)) + [Hole(m)])
      && RewriteKnown(tmpl, AddNames([], Parse(tmpl).value), map[n := v, m := ""]) !=
           Substitute(Parse(tmpl).value, map[n := v, m := ""])
  {
    hide Placeholder, ReplaceAll, Parse, Substitute, AddNames, Completion;
    var c, p, q := Completion(v, m, i), Placeholder(n), Placeholder(m);
    var tmpl, fields := p + c + q, map[n := v, m := ""];
    CompletionCompletes(v, m, i);
    TwoHolesParse(n, c, m);
    NamesOfTwoHoles(n, c, m);
    SubstituteTwoHoles(n, c, m, fields);
    PlaceholderStarts(n);
    PlaceholderStarts(m);
    RewriteTwo(tmpl, n, m, fields);
    calc {
      ReplaceAll(tmpl, p, v);
    == { assert tmpl == p + (c + q); ReplaceHole(c + q, n, v); }
      v + ReplaceAll(c + q, p, v);
    == { BraceFreeIsInert(c, n); ReplaceText(c, q, n, v); }
      v + (c + ReplaceAll(q, p, v));
    == { assert q == q + ""; ReplaceOtherHole(m, "", n, v); ReplaceShort("", p, v); assert q + "" == q; }
      v + (c + q);
    == { assert v + (c + q) == (v + c) + q; }
      (v + c) + q;
    }
    DeletingTwo(v + c, q, i);
  }

  lemma RewriteTwo(out: string, n: string, m: string, fields: Fields)
    requires n in fields && m in fields
    ensures RewriteKnown(out, [n, m], fields) ==
      ReplaceAll(ReplaceAll(out, Placeholder(n), fields[n]), Placeholder(m), fields[m])
  {
    hide ReplaceAll;
    assert [n, m][1..] == [m] && [m][1..] == [];
    var next := ReplaceAll(out, Placeholder(n), fields[n]);
    assert RewriteKnown(next, [m], fields) == RewriteKnown(ReplaceAll(next, Placeholder(m), fields[m]), [], fields);
  }

  /** Of the values for one name, the code rewrites exactly those that can be part
  of the placeholder of another name of the kind: a part of the value from some
  point on starts that placeholder, or is started by it. */
  lemma NeverRewrittenExactly(kind: Kind, n: string, v: string)
    requires n in AllowedFields(kind)
    ensures NeverRewritten(kind, n, v) <==>
      forall m :: m in AllowedFields(kind) && m != n ==> Inert(v, Placeholder(m))
  {
    hide Inert, RewriteKnown, Substitute, Parse, AddNames;
    if forall m :: m in AllowedFields(kind) && m != n ==> Inert(v, Placeholder(m)) {
      forall tmpl, fields | Accepted(tmpl, kind) && OneWithBraces(fields, n, v)
        ensures RewriteKnown(tmpl, AddNames([], Parse(tmpl).value), fields) == Substitute(Parse(tmpl).value, fields)
      {
        InertIsApart(tmpl, kind, fields, n, v);
        AcceptedIsClean(tmpl, kind);
        RewriteIsSimultaneousApart(tmpl, fields);
      }
    } else {
      var m :| m in AllowedFields(kind) && m != n && !Inert(v, Placeholder(m));
      SomeIsRewritten(kind, n, m, v);
    }
  }

  lemma InertIsApart(tmpl: string, kind: Kind, fields: Fields, n: string, v: string)
    requires Accepted(tmpl, kind) && OneWithBraces(fields, n, v)
    requires forall m :: m in AllowedFields(kind) && m != n ==> Inert(v, Placeholder(m))
    ensures Apart(fields, set x | x in AddNames([], Parse(tmpl).value))
  {
    hide Inert, Parse, AddNames;
    var names := AddNames([], Parse(tmpl).value);
    AcceptedIsClean(tmpl, kind);
    NamesAreHoles(Parse(tmpl).value);
    forall x, y | x in fields && x in names && y in names && x != y ensures Inert(fields[x], Placeholder(y)) {
      if x == n {
        assert Hole(y) in Parse(tmpl).value;
      } else {
        BraceFreeIsInert(fields[x], y);
      }
    }
  }

  lemma FieldName(kind: Kind, n: string)
    requires n in AllowedFields(kind)
    ensures n != "" && '{' !in n && '}' !in n
  {
  }

  lemma MeetingPoint(v: string, p: string) returns (i: nat)
    requires !Inert(v, p)
    ensures i < |v| && Meets(v[i..], p)
  {
    i :| 0 <= i < |v| && Meets(v[i..], p);
  }

  lemma SomeIsRewritten(kind: Kind, n: string, m: string, v: string)
    requires n in AllowedFields(kind) && m in AllowedFields(kind) && n != m && !Inert(v, Placeholder(m))
    ensures !NeverRewritten(kind, n, v)
  {
    hide RewriteKnown, Substitute, Parse, AddNames, Completion, Inert, Meets;
    FieldName(kind, n);
    FieldName(kind, m);
    assert '{' !in n + m && '}' !in n + m && n != "" && m != "";
    var i := MeetingPoint(v, Placeholder(m));
    CompletedIsRewritten(n, m, v, i);
    var tmpl, fields := Placeholder(n) + Completion(v, m, i) + Placeholder(m), map[n := v, m := ""];
    TwoHolesAccepted(tmpl, kind, n, Completion(v, m, i), m);
    assert OneWithBraces(fields, n, v);
  }

  lemma TwoHolesAccepted(tmpl: string, kind: Kind, n: string, c: string, m: string)
    requires Parse(tmpl) == Ok([Hole(n)] + Literals(c) + [Hole(m)])
    requires n in AllowedFields(kind) && m in AllowedFields(kind)
    ensures Accepted(tmpl, kind)
  {
    hide Parse, Literals, AllowedFields;
    LiteralsText(c);
  }

  /** A value that spells a placeholder is rewritten by the next name, where
  simultaneous substitution keeps it. */
  lemma BraceInValueIsRewritten(n: string, m: string, v: string)
    requires n != m && '{' !in n + m && '}' !in n + m && '{' !in v
    ensures var tokens := [Hole(n), Hole(m)];
      var fields := map[n := Placeholder(m), m := v];
      && RewriteKnown(Text(tokens), [n, m], fields) == v + v
      && Substitute(tokens, fields) == Placeholder(m) + v
  {
    var tokens := [Hole(n), Hole(m)];
    var fields := map[n := Placeholder(m), m := v];
    hide ReplaceAll;
    assert tokens[1..] == [Hole(m)] && [Hole(m)][1..] == [];
    assert [n, m][1..] == [m] && [m][1..] == [];
    var p, q := Placeholder(n), Placeholder(m);
    HoleText(n);
    HoleText(m);
    TextAppend([Hole(n)], [Hole(m)]);
    assert [Hole(n)] + [Hole(m)] == tokens;
    assert q + "" == q && p + q == Text(tokens);
    assert Substitute([Hole(m)], fields) == v + "";
    ReplaceHole(q, n, q);
    ReplaceOtherHole(m, "", n, q);
    ReplaceShort("", p, q);
    ReplaceHole(q, m, v);
    ReplaceHole("", m, v);
    ReplaceShort("", q, v);
    assert ReplaceAll(p + q, p, q) == q + q;
    assert ReplaceAll(q + q, q, v) == v + v;
    assert RewriteKnown(p + q, [n, m], fields) == RewriteKnown(q + q, [m], fields);
    assert RewriteKnown(q + q, [m], fields) == RewriteKnown(v + v, [], fields);
  }
}
