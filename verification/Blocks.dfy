/** Block discovery: the range flag and the walk over heights in cmd/blocks.go. */
module Blocks {
  import opened GoText
  import opened Template

  const MaxBlocks: int := 50_000
  const MissThreshold: int := 1000
  const MaxHeight: int := MaxInt - 1

  // ----- the range flag -----

  datatype Range = Range(start: int, end: int, openEnded: bool)

  datatype RangeError = BadHeight | Backwards | TooWide

  function ParseHeight(s: string): Option<int> {
    var v := Atoi(s);
    if v.Some? && 0 <= v.value <= MaxHeight then v else None
  }

  /** N, N- or N-M. */
  function ParseRange(s: string): (r: Result<Range, RangeError>)
    ensures r.Ok? ==> 0 <= r.value.start <= 9223372036854775806
    ensures r.Ok? && !r.value.openEnded ==> r.value.start <= r.value.end <= 9223372036854775806
    ensures r.Ok? && !r.value.openEnded ==> r.value.end - r.value.start + 1 <= 50_000
  {
    var i := IndexOf(s, '-');
    var start := ParseHeight(s[..i]);
    if start.None? then Err(BadHeight)
    else if i == |s| then Ok(Range(start.value, start.value, false))
    else if i + 1 == |s| then Ok(Range(start.value, 0, true))
    else
      var end := ParseHeight(s[i + 1..]);
      if end.None? then Err(BadHeight)
      else if end.value < start.value then Err(Backwards)
      else if end.value - start.value >= MaxBlocks then Err(TooWide)
      else Ok(Range(start.value, end.value, false))
  }

  /** Every range is read back from its three printed forms. */
  lemma RangeReadsBack(a: int, b: int)
    requires 0 <= a <= 9223372036854775806 && 0 <= b <= 9223372036854775806
    ensures ParseRange(Itoa(a)) == Ok(Range(a, a, false))
    ensures ParseRange(Itoa(a) + "-") == Ok(Range(a, 0, true))
    ensures ParseRange(Itoa(a) + "-" + Itoa(b)) ==
      if b < a then Err(Backwards) else if b - a + 1 > 50_000 then Err(TooWide) else Ok(Range(a, b, false))
  {
    hide Atoi, Itoa;
    ParseItoa(a);
    ParseItoa(b);
    var s, t := Itoa(a), Itoa(b);
    NoHyphen(a);
    assert s[..|s|] == s;
    SplitAtHyphen(s, "");
    SplitAtHyphen(s, t);
    assert s + "-" + "" == s + "-";
  }

  /** A height over the highest one is refused. */
  lemma HighHeightIsRefused(a: int)
    requires a < 0 || a > 9223372036854775806
    ensures ParseHeight(Itoa(a)) == None
  {
    hide Itoa;
    if MinInt <= a <= MaxInt {
      ParseItoa(a);
    } else {
      ParseItoaTooLarge(a);
    }
  }

  /** A range with such a height, or with a text that is no number, is refused. */
  lemma BadHeightsAreRefused(a: int, b: int, x: string)
    requires 0 <= a <= 9223372036854775806 && (b < 0 || b > 9223372036854775806)
    requires '-' !in x && Atoi(x).None?
    ensures ParseRange(Itoa(b)) == Err(BadHeight)
    ensures ParseRange(Itoa(a) + "-" + Itoa(b)) == Err(BadHeight)
    ensures ParseRange(x) == Err(BadHeight) && ParseRange(x + "-" + Itoa(a)) == Err(BadHeight)
    ensures x != "" ==> ParseRange(Itoa(a) + "-" + x) == Err(BadHeight)
  {
    hide Atoi, Itoa;
    ParseItoa(a);
    HighHeightIsRefused(b);
    NoHyphen(a);
    SplitAtHyphen(Itoa(a), Itoa(b));
    SplitAtHyphen(Itoa(a), x);
    SplitAtHyphen(x, Itoa(a));
    assert x[..|x|] == x;
    HyphenFirst(b);
    NoNumber();
  }

  lemma HyphenFirst(b: int)
    requires b < 0 || b > 9223372036854775806
    ensures Itoa(b) != "" && if b < 0 then IndexOf(Itoa(b), '-') == 0 else IndexOf(Itoa(b), '-') == |Itoa(b)|
    ensures b > 0 ==> Itoa(b)[..|Itoa(b)|] == Itoa(b)
  {
    hide Itoa;
    if b < 0 {
      NegativeStarts(b);
    } else {
      NoHyphen(b);
    }
  }

  lemma NegativeStarts(b: int)
    requires b < 0
    ensures Itoa(b) != "" && Itoa(b)[0] == '-'
  {
  }

  lemma NoNumber()
    ensures Atoi("").None?
  {
  }

  lemma NoHyphen(a: nat)
    ensures '-' !in Itoa(a) && Itoa(a) != ""
  {
  }

  lemma SplitAtHyphen(s: string, t: string)
    requires '-' !in s
    ensures var w := s + "-" + t; IndexOf(w, '-') == |s| && w[..|s|] == s && w[|s| + 1..] == t
  {
    IndexOfAt(s, '-', t);
  }

  // ----- the walk -----

  datatype BlocksError = BadTemplate(error: TemplateError) | ListFailed(height: int) | CapReached(height: int)

  /** What the provider answers when it is asked, for a height, to list a prefix.
  Each height is asked for at most once, so this covers every behaviour. */
  type Provider = (int, string) -> Option<seq<string>>

  function HeightField(h: int): Fields {
    map["height" := Itoa(h)]
  }

  function HeightPrefix(tmpl: string, h: int): string
    requires Parse(tmpl).Ok?
  {
    BeforeBrace(RewriteKnown(tmpl, AddNames([], Parse(tmpl).value), HeightField(h)))
  }

  function JsonNames(names: seq<string>): seq<string> {
    if names == [] then []
    else (if HasSuffix(names[0], ".json") then [names[0]] else []) + JsonNames(names[1..])
  }

  /** The listing for height h. */
  function Listed(tmpl: string, list: Provider, h: int): Option<seq<string>>
    requires Parse(tmpl).Ok?
  {
    list(h, HeightPrefix(tmpl, h))
  }

  /** The block names found at height h. */
  function FoundAt(tmpl: string, list: Provider, h: int): seq<string>
    requires Parse(tmpl).Ok?
  {
    var names := Listed(tmpl, list, h);
    if names.Some? then JsonNames(names.value) else []
  }

  /** The block names found from height start on and below height stop. */
  function Collected(tmpl: string, list: Provider, start: int, stop: int): seq<string>
    requires Parse(tmpl).Ok?
    decreases stop - start
  {
    if stop <= start then []
    else Collected(tmpl, list, start, stop - 1) + FoundAt(tmpl, list, stop - 1)
  }

  /** How many heights just below stop, but not below start, have no block. */
  function Misses(tmpl: string, list: Provider, start: int, stop: int): nat
    requires Parse(tmpl).Ok?
    decreases stop - start
  {
    if stop <= start || FoundAt(tmpl, list, stop - 1) != [] then 0
    else 1 + Misses(tmpl, list, start, stop - 1)
  }

  /** The heights from start on and below stop were all listed without an error. */
  ghost predicate AllListed(tmpl: string, list: Provider, start: int, stop: int)
    requires Parse(tmpl).Ok?
  {
    forall h :: start <= h < stop ==> Listed(tmpl, list, h).Some?
  }

  /** No height below stop ended a run of misses at the threshold. */
  ghost predicate NoEarlierRun(tmpl: string, list: Provider, start: int, stop: int)
    requires Parse(tmpl).Ok?
  {
    forall h :: start <= h < stop ==> Misses(tmpl, list, start, h) < 1000
  }

  /** What the walk promises when it ends after asking for the heights from start
  on and below stop. */
  ghost predicate WalkResult(tmpl: string, list: Provider, start: int, end: int, openEnded: bool,
                             r: Result<seq<string>, BlocksError>, stop: int)
    requires Parse(tmpl).Ok?
  {
    && start <= stop
    && (openEnded ==> stop - start <= 50_000_000 && NoEarlierRun(tmpl, list, start, stop))
    && (!openEnded ==> stop <= end + 1 || stop == start)
    && match r
       case Ok(names) =>
         && AllListed(tmpl, list, start, stop)
         && names == Collected(tmpl, list, start, stop) && |names| < 50_000
         && (openEnded ==> Misses(tmpl, list, start, stop) == 1000 || stop == 9223372036854775808)
         && (!openEnded ==> stop == if start <= end then end + 1 else start)
       case Err(ListFailed(h)) =>
         start < stop && h == stop - 1 && AllListed(tmpl, list, start, h) && Listed(tmpl, list, h).None?
       case Err(CapReached(h)) =>
         && start < stop && h == stop - 1 && AllListed(tmpl, list, start, stop)
         && |Collected(tmpl, list, start, h)| < 50_000 <= |Collected(tmpl, list, start, stop)|
       case Err(BadTemplate(_)) => false
  }

  method FilterJson(names: seq<string>) returns (found: seq<string>)
    ensures found == JsonNames(names)
  {
    found := [];
    var k := 0;
    while k < |names|
      invariant k <= |names|
      invariant found + JsonNames(names[k..]) == JsonNames(names)
    {
      assert names[k..][1..] == names[k + 1..];
      if HasSuffix(names[k], ".json") {
        found := found + [names[k]];
      }
      k := k + 1;
    }
  }

  /** What the loop has done below height h. */
  ghost predicate Walked(tmpl: string, list: Provider, start: int, h: int, openEnded: bool, wanted: seq<string>, misses: int)
    requires Parse(tmpl).Ok?
  {
    && AllListed(tmpl, list, start, h)
    && wanted == Collected(tmpl, list, start, h)
    && (openEnded ==> misses == Misses(tmpl, list, start, h) && NoEarlierRun(tmpl, list, start, h))
  }

  lemma WalkStarts(tmpl: string, list: Provider, start: int, openEnded: bool)
    requires Parse(tmpl).Ok?
    ensures Walked(tmpl, list, start, start, openEnded, [], 0)
  {
  }

  lemma WalkStep(tmpl: string, list: Provider, start: int, h: int, openEnded: bool, wanted: seq<string>, misses: int)
    requires Parse(tmpl).Ok? && start <= h && 0 <= misses < MissThreshold
    requires Walked(tmpl, list, start, h, openEnded, wanted, misses)
    requires Listed(tmpl, list, h).Some?
    ensures var found := JsonNames(Listed(tmpl, list, h).value);
      Walked(tmpl, list, start, h + 1, openEnded, wanted + found, if found != [] then 0 else misses + 1)
  {
    hide Parse, HeightPrefix, JsonNames;
  }

  lemma WalkEnds(tmpl: string, list: Provider, start: int, end: int, openEnded: bool, h: int, wanted: seq<string>, misses: int)
    requires Parse(tmpl).Ok? && start <= h && Walked(tmpl, list, start, h, openEnded, wanted, misses)
    requires |wanted| < MaxBlocks && (openEnded ==> h - start <= 50_000_000)
    requires openEnded ==> misses == MissThreshold || h == MaxInt + 1
    requires !openEnded ==> h == if start <= end then end + 1 else start
    ensures WalkResult(tmpl, list, start, end, openEnded, Ok(wanted), h)
  {
    hide Parse, Listed, FoundAt;
  }

  lemma WalkFails(tmpl: string, list: Provider, start: int, end: int, openEnded: bool, h: int, wanted: seq<string>, misses: int)
    requires Parse(tmpl).Ok? && start <= h && Walked(tmpl, list, start, h, openEnded, wanted, misses)
    requires Listed(tmpl, list, h).None? && 0 <= misses < MissThreshold
    requires openEnded ==> h + 1 - start <= 50_000_000
    requires !openEnded ==> h <= end
    ensures WalkResult(tmpl, list, start, end, openEnded, Err(ListFailed(h)), h + 1)
  {
    hide Parse, Listed, FoundAt;
  }

  lemma WalkIsCapped(tmpl: string, list: Provider, start: int, end: int, openEnded: bool, h: int,
                     before: seq<string>, wanted: seq<string>, m0: int, m1: int)
    requires Parse(tmpl).Ok? && start <= h
    requires Walked(tmpl, list, start, h, openEnded, before, m0) && |before| < MaxBlocks
    requires Walked(tmpl, list, start, h + 1, openEnded, wanted, m1) && |wanted| >= MaxBlocks
    requires openEnded ==> h + 1 - start <= 50_000_000
    requires !openEnded ==> h <= end
    ensures WalkResult(tmpl, list, start, end, openEnded, Err(CapReached(h)), h + 1)
  {
    hide Parse, Listed, FoundAt, Collected, Misses;
  }

  /** The walk ends whatever the provider answers, after at most 50,000,000
  listings, and the height never leaves the 64-bit range. */
  method DiscoverBlocks(tmpl: string, list: Provider, start: int, end: int, openEnded: bool)
    returns (r: Result<seq<string>, BlocksError>, ghost stop: int)
    requires MinInt <= start <= MaxInt && MinInt <= end <= MaxInt
    ensures Parse(tmpl).Ok? ==> WalkResult(tmpl, list, start, end, openEnded, r, stop)
    ensures Parse(tmpl).Err? ==> r == if openEnded || start <= end then Err(BadTemplate(Parse(tmpl).error)) else Ok([])
  {
    hide Parse, HeightPrefix, JsonNames, Walked, WalkResult, HeightField;
    var wanted: seq<string> := [];
    var consecutiveMisses := 0;
    var h := start;
    ghost var parsed := Parse(tmpl).Ok?;
    if parsed {
      WalkStarts(tmpl, list, start, openEnded);
    }
    while openEnded || h <= end
      invariant start <= h <= MaxInt
      invariant !openEnded ==> h <= end + 1 || h == start
      invariant 0 <= consecutiveMisses < MissThreshold && |wanted| < MaxBlocks
      invariant openEnded ==> h - start <= |wanted| * 1000 + consecutiveMisses
      invariant !parsed ==> h == start && wanted == []
      invariant parsed ==> Walked(tmpl, list, start, h, openEnded, wanted, consecutiveMisses)
      decreases if openEnded then MaxBlocks - |wanted| else end + 1 - h, MissThreshold - consecutiveMisses
    {
      var prefix := Prefix(tmpl, HeightField(h));
      if prefix.Err? {
        return Err(BadTemplate(prefix.error)), h;
      }
      PrefixIs(tmpl, h, prefix.value);
      var names := list(h, prefix.value);
      if names.None? {
        WalkFails(tmpl, list, start, end, openEnded, h, wanted, consecutiveMisses);
        return Err(ListFailed(h)), h + 1;
      }
      var found := FilterJson(names.value);
      ghost var w0, m0 := wanted, consecutiveMisses;
      WalkStep(tmpl, list, start, h, openEnded, wanted, consecutiveMisses);
      wanted := wanted + found;
      if openEnded {
        if found != [] {
          consecutiveMisses := 0;
        } else {
          consecutiveMisses := consecutiveMisses + 1;
          if consecutiveMisses >= MissThreshold {
            WalkEnds(tmpl, list, start, end, openEnded, h + 1, wanted, consecutiveMisses);
            return Ok(wanted), h + 1;
          }
        }
      }
      if |wanted| >= MaxBlocks {
        WalkIsCapped(tmpl, list, start, end, openEnded, h, w0, wanted, m0, if found != [] then 0 else m0 + 1);
        return Err(CapReached(h)), h + 1;
      }
      if h == MaxInt {
        WalkEnds(tmpl, list, start, end, openEnded, h + 1, wanted, if found != [] then 0 else m0 + 1);
        return Ok(wanted), h + 1;
      }
      h := h + 1;
      if !openEnded {
        WalkedClosed(tmpl, list, start, h, wanted, if found != [] then 0 else m0 + 1, consecutiveMisses);
      }
    }
    if parsed {
      WalkEnds(tmpl, list, start, end, openEnded, h, wanted, consecutiveMisses);
    }
    return Ok(wanted), h;
  }

  /** In a closed range the misses are not counted. */
  lemma WalkedClosed(tmpl: string, list: Provider, start: int, h: int, wanted: seq<string>, m0: int, m1: int)
    requires Parse(tmpl).Ok? && Walked(tmpl, list, start, h, false, wanted, m0)
    ensures Walked(tmpl, list, start, h, false, wanted, m1)
  {
  }

  lemma PrefixIs(tmpl: string, h: int, prefix: string)
    requires Parse(tmpl).Ok?
    requires prefix == BeforeBrace(RewriteKnown(tmpl, AddNames([], Parse(tmpl).value), HeightField(h)))
    ensures prefix == HeightPrefix(tmpl, h)
  {
  }

  /** The run of misses below stop is exactly as long as it says. */
  lemma {:induction false} MissesMeaning(tmpl: string, list: Provider, start: int, stop: int)
    requires Parse(tmpl).Ok? && start <= stop
    ensures var m := Misses(tmpl, list, start, stop);
      && m <= stop - start
      && (forall h :: stop - m <= h < stop ==> FoundAt(tmpl, list, h) == [])
      && (m < stop - start ==> FoundAt(tmpl, list, stop - m - 1) != [])
    decreases stop - start
  {
    hide FoundAt, Parse;
    if start < stop && FoundAt(tmpl, list, stop - 1) == [] {
      MissesMeaning(tmpl, list, start, stop - 1);
    }
  }

  // ----- when the prefixes of two heights cannot name one block -----

  /** The name starts with the prefix of height h. */
  predicate Carries(tokens: seq<Token>, h: int, name: string) {
    Known(tokens, HeightField(h)) <= name
  }

  /** Every later token that the prefix reaches is a height or a digit. */
  predicate OnlyDigits(tokens: seq<Token>) {
    if tokens == [] then true
    else
      match tokens[0]
      case Lit(c) => IsDigit(c) && OnlyDigits(tokens[1..])
      case Hole(n) => n == "height" ==> OnlyDigits(tokens[1..])
  }

  /** Before the first unknown placeholder, the height occurs and a character
  that is not a digit follows it somewhere. */
  predicate Delimited(tokens: seq<Token>) {
    if tokens == [] then false
    else
      match tokens[0]
      case Lit(_) => Delimited(tokens[1..])
      case Hole(n) => n == "height" && !OnlyDigits(tokens[1..])
  }

  ghost predicate HeightsNeverCollide(tokens: seq<Token>) {
    forall h1: nat, h2: nat, name | Carries(tokens, h1, name) && Carries(tokens, h2, name) :: h1 == h2
  }

  /** The digits the prefix continues with, when the height has k digits. */
  function DigitsLength(tokens: seq<Token>, k: nat): nat {
    if tokens == [] then 0
    else
      match tokens[0]
      case Lit(c) => if IsDigit(c) then 1 + DigitsLength(tokens[1..], k) else 0
      case Hole(n) => if n == "height" then k + DigitsLength(tokens[1..], k) else 0
  }

  lemma {:induction false} DigitsLengthGrows(tokens: seq<Token>, j: nat, k: nat)
    requires j <= k
    ensures DigitsLength(tokens, j) <= DigitsLength(tokens, k)
    decreases |tokens|
  {
    if tokens != [] {
      DigitsLengthGrows(tokens[1..], j, k);
    }
  }

  lemma HeightDigits(h: nat)
    ensures AllDigits(Itoa(h)) && Itoa(h) != ""
    ensures HeightField(h)["height"] == Itoa(h) && BraceFree(HeightField(h))
  {
  }

  /** After the height, the prefix continues with a known number of digits and
  then with a character that is not one. */
  lemma {:induction false} DigitsThenOther(tokens: seq<Token>, h: nat)
    requires !OnlyDigits(tokens)
    ensures var p, n := Known(tokens, HeightField(h)), DigitsLength(tokens, |Itoa(h)|);
      n < |p| && AllDigits(p[..n]) && !IsDigit(p[n])
    decreases |tokens|
  {
    hide Itoa;
    HeightDigits(h);
    var k := |Itoa(h)|;
    match tokens[0] {
      case Lit(c) =>
        if IsDigit(c) {
          DigitsThenOther(tokens[1..], h);
          DigitsPrepend([c], Known(tokens[1..], HeightField(h)), DigitsLength(tokens[1..], k));
        }
      case Hole(n) =>
        DigitsThenOther(tokens[1..], h);
        DigitsPrepend(Itoa(h), Known(tokens[1..], HeightField(h)), DigitsLength(tokens[1..], k));
    }
  }

  lemma DigitsPrepend(d: string, p: string, n: nat)
    requires AllDigits(d) && n < |p| && AllDigits(p[..n]) && !IsDigit(p[n])
    ensures var q := d + p;
      |d| + n < |q| && AllDigits(q[..|d| + n]) && !IsDigit(q[|d| + n])
  {
    assert (d + p)[..|d| + n] == d + p[..n];
  }

  /** Two digit runs that start one text, each before a non-digit, are the same. */
  lemma SameRun(p: string, m: nat, q: string, n: nat, name: string)
    requires p <= name && q <= name
    requires m < |p| && AllDigits(p[..m]) && !IsDigit(p[m])
    requires n < |q| && AllDigits(q[..n]) && !IsDigit(q[n])
    ensures m == n && p[..m] == q[..n]
  {
    assert forall i :: 0 <= i < m ==> name[i] == p[..m][i];
    assert forall i :: 0 <= i < n ==> name[i] == q[..n][i];
    assert name[m] == p[m] && name[n] == q[n];
    assert p[..m] == name[..m] && q[..n] == name[..n];
  }

  lemma ItoaInjective(a: nat, b: nat)
    requires Itoa(a) == Itoa(b)
    ensures a == b
  {
    assert Value(ItoaNat(a)) == a && Value(ItoaNat(b)) == b;
  }

  lemma KnownAfterHeight(tokens: seq<Token>, h: nat)
    requires tokens != [] && tokens[0] == Hole("height")
    ensures Known(tokens, HeightField(h)) == Itoa(h) + Known(tokens[1..], HeightField(h))
  {
  }

  lemma CollisionAfterHeight(tokens: seq<Token>, h1: nat, h2: nat, name: string)
    requires tokens != [] && tokens[0] == Hole("height") && !OnlyDigits(tokens[1..])
    requires Carries(tokens, h1, name) && Carries(tokens, h2, name)
    ensures h1 == h2
  {
    hide Itoa, OnlyDigits, DigitsLength, Known, AllDigits;
    KnownAfterHeight(tokens, h1);
    KnownAfterHeight(tokens, h2);
    var a, b, rest := Itoa(h1), Itoa(h2), tokens[1..];
    var p, q := Known(rest, HeightField(h1)), Known(rest, HeightField(h2));
    var m, n := DigitsLength(rest, |a|), DigitsLength(rest, |b|);
    HeightDigits(h1);
    HeightDigits(h2);
    DigitsThenOther(rest, h1);
    DigitsThenOther(rest, h2);
    DigitsPrepend(a, p, m);
    DigitsPrepend(b, q, n);
    SameRun(a + p, |a| + m, b + q, |b| + n, name);
    if |a| <= |b| {
      DigitsLengthGrows(rest, |a|, |b|);
    } else {
      DigitsLengthGrows(rest, |b|, |a|);
    }
    assert a == name[..|a|] && b == name[..|b|];
    ItoaInjective(h1, h2);
  }

  lemma {:induction false} DelimitedKeepsApart(tokens: seq<Token>, h1: nat, h2: nat, name: string)
    requires Delimited(tokens) && Carries(tokens, h1, name) && Carries(tokens, h2, name)
    ensures h1 == h2
    decreases |tokens|
  {
    hide Itoa, OnlyDigits;
    match tokens[0] {
      case Lit(c) =>
        var rest := tokens[1..];
        var p, q := Known(rest, HeightField(h1)), Known(rest, HeightField(h2));
        assert ([c] + p)[1..] == p && ([c] + q)[1..] == q;
        assert p <= name[1..] && q <= name[1..];
        DelimitedKeepsApart(rest, h1, h2, name[1..]);
      case Hole(_) =>
        CollisionAfterHeight(tokens, h1, h2, name);
    }
  }

  // A template without such a character lets two heights share a name.

  lemma {:induction false} OnlyDigitsKnown(tokens: seq<Token>, h: nat)
    requires OnlyDigits(tokens)
    ensures AllDigits(Known(tokens, HeightField(h)))
    decreases |tokens|
  {
    hide Itoa;
    HeightDigits(h);
    if tokens != [] && (tokens[0].Lit? || tokens[0].name == "height") {
      OnlyDigitsKnown(tokens[1..], h);
    }
  }

  /** Digits without a leading zero print as themselves. */
  lemma {:induction false} ItoaOfValue(s: string)
    requires s != "" && AllDigits(s) && s[0] != '0'
    ensures Value(s) > 0 && ItoaNat(Value(s)) == s
    decreases |s|
  {
    var last := s[|s| - 1];
    assert s == s[..|s| - 1] + [last];
    assert DigitChar(DigitValue(last)) == last;
    if |s| > 1 {
      var v, d := Value(s[..|s| - 1]), DigitValue(last);
      ItoaOfValue(s[..|s| - 1]);
      assert Value(s) == 10 * v + d;
      assert (10 * v + d) / 10 == v && (10 * v + d) % 10 == d;
    } else {
      assert s[..0] == "";
    }
  }

  lemma CollideAfterHeight(tokens: seq<Token>) returns (h: nat)
    requires tokens != [] && tokens[0] == Hole("height") && OnlyDigits(tokens[1..])
    ensures h != 1 && Known(tokens, HeightField(1)) <= Known(tokens, HeightField(h))
  {
    hide OnlyDigits;
    var rest := tokens[1..];
    assert Itoa(1) == "1" && Itoa(10) == "10";
    var d := Known(rest, HeightField(1));
    OnlyDigitsKnown(rest, 1);
    var run := "1" + d;
    assert Known(tokens, HeightField(1)) == run;
    if d == "" {
      h := 10;
      assert Known(tokens, HeightField(10)) == "10" + Known(rest, HeightField(10));
    } else {
      ItoaOfValue(run);
      h := Value(run);
      assert Itoa(h) == run;
      assert Known(tokens, HeightField(h)) == run + Known(rest, HeightField(h));
    }
  }

  lemma {:induction false} UndelimitedCollides(tokens: seq<Token>) returns (h1: nat, h2: nat)
    requires !Delimited(tokens)
    ensures h1 != h2 && Known(tokens, HeightField(h1)) <= Known(tokens, HeightField(h2))
    decreases |tokens|
  {
    hide Itoa, OnlyDigits;
    if tokens == [] || (tokens[0].Hole? && tokens[0].name != "height") {
      return 0, 1;
    } else if tokens[0].Lit? {
      h1, h2 := UndelimitedCollides(tokens[1..]);
    } else {
      h2 := CollideAfterHeight(tokens);
      h1 := 1;
    }
  }

  /** Heights are told apart by their prefixes exactly when the template is
  delimited. */
  lemma CollisionFreeExactly(tokens: seq<Token>)
    ensures HeightsNeverCollide(tokens) <==> Delimited(tokens)
  {
    hide Itoa, OnlyDigits, Delimited, Known;
    if Delimited(tokens) {
      forall h1: nat, h2: nat, name | Carries(tokens, h1, name) && Carries(tokens, h2, name)
        ensures h1 == h2
      {
        DelimitedKeepsApart(tokens, h1, h2, name);
      }
    } else {
      var h1, h2 := UndelimitedCollides(tokens);
      assert Carries(tokens, h1, Known(tokens, HeightField(h2)));
      assert Carries(tokens, h2, Known(tokens, HeightField(h2)));
    }
  }

  // ----- the same for the heights a run can ask for -----

  ghost predicate RunHeightsNeverCollide(tokens: seq<Token>) {
    forall h1: nat, h2: nat, name | h1 <= MaxInt && h2 <= MaxInt && Carries(tokens, h1, name) && Carries(tokens, h2, name) ::
      h1 == h2
  }

  lemma {:induction false} ValueOfLength(s: string)
    requires s != "" && AllDigits(s)
    ensures s[0] != '0' ==> Value(s) >= Pow10(|s| - 1)
    ensures s[0] == '1' ==> Value(s) < 2 * Pow10(|s| - 1)
    decreases |s|
  {
    if |s| > 1 {
      ValueOfLength(s[..|s| - 1]);
    } else {
      assert s[..0] == "";
    }
  }

  lemma PowersOfTen()
    ensures Pow10(18) == 1_000_000_000_000_000_000 && Pow10(19) == 10_000_000_000_000_000_000
  {
    assert Pow10(2) == 100;
    assert Pow10(4) == 10_000;
    assert Pow10(6) == 1_000_000;
    assert Pow10(8) == 100_000_000;
    assert Pow10(10) == 10_000_000_000;
    assert Pow10(12) == 1_000_000_000_000;
    assert Pow10(14) == 100_000_000_000_000;
    assert Pow10(16) == 10_000_000_000_000_000;
    assert Pow10(18) == 1_000_000_000_000_000_000;
  }

  /** The heights of a run have at most 19 digits, and every number that has as
  many and starts with 1 is such a height. */
  lemma NineteenDigits(s: string)
    requires s != "" && AllDigits(s) && s[0] != '0'
    ensures Value(s) <= MaxInt ==> |s| <= 19
    ensures |s| <= 19 && s[0] == '1' ==> Value(s) <= MaxInt
  {
    PowersOfTen();
    ValueOfLength(s);
    if |s| <= 19 {
      Pow10Grows(|s| - 1, 18);
    } else {
      Pow10Grows(19, |s| - 1);
    }
  }

  lemma HeightLength(h: nat)
    requires h <= MaxInt
    ensures 1 <= |Itoa(h)| <= 19
  {
    if h > 0 {
      NineteenDigits(Itoa(h));
    }
  }

  /** There is no height up to the first unknown placeholder. */
  predicate NoHeight(tokens: seq<Token>) {
    tokens == [] || match tokens[0]
                    case Lit(_) => NoHeight(tokens[1..])
                    case Hole(n) => n != "height"
  }

  /** The text has no period up to 18, and is longer than that. */
  predicate NoShortPeriod(t: string) {
    |t| > 18 && forall d :: 1 <= d <= 18 ==> !(t[d..] <= t)
  }

  /** The height occurs, and what follows it tells the heights of a run apart: a
  character that is not a digit, or 19 digits or more that do not repeat. */
  predicate TellsRunsApart(tokens: seq<Token>) {
    tokens != [] &&
    match tokens[0]
    case Lit(_) => TellsRunsApart(tokens[1..])
    case Hole(n) =>
      n == "height" &&
      (!OnlyDigits(tokens[1..])
       || (NoHeight(tokens[1..]) && NoShortPeriod(Known(tokens[1..], map[]))))
  }

  /** The digits after the first height hold no second one, or are at most 18. */
  predicate OneHeightInDigits(tokens: seq<Token>) {
    tokens == [] ||
    match tokens[0]
    case Lit(_) => OneHeightInDigits(tokens[1..])
    case Hole(n) =>
      n == "height" && OnlyDigits(tokens[1..]) ==>
        NoHeight(tokens[1..]) || |Known(tokens[1..], HeightField(1))| <= 18
  }

  lemma {:induction false} NoHeightKnown(tokens: seq<Token>, h: nat)
    requires NoHeight(tokens)
    ensures Known(tokens, HeightField(h)) == Known(tokens, map[])
    decreases |tokens|
  {
    hide Itoa;
    if tokens != [] && tokens[0].Lit? {
      NoHeightKnown(tokens[1..], h);
    }
  }

  /** Two starts of one text, with the same tail after numbers of different length:
  the tail repeats itself after the difference. */
  lemma TailRepeats(a: string, b: string, t: string, name: string)
    requires a + t <= name && b + t <= name && |a| < |b| <= |a| + |t|
    ensures t[|b| - |a|..] <= t
  {
    var d := |b| - |a|;
    var u, v := a + t, b + t;
    assert forall k :: 0 <= k < |t| ==> u[|a| + k] == t[k] && v[|b| + k] == t[k];
    forall k | 0 <= k < |t| - d ensures t[d..][k] == t[k] {
      assert t[d + k] == name[|a| + d + k] == name[|b| + k] == t[k];
    }
  }

  lemma RunsApartAfterHeight(tokens: seq<Token>, h1: nat, h2: nat, name: string)
    requires tokens != [] && tokens[0] == Hole("height")
    requires NoHeight(tokens[1..]) && NoShortPeriod(Known(tokens[1..], map[]))
    requires h1 <= MaxInt && h2 <= MaxInt && Carries(tokens, h1, name) && Carries(tokens, h2, name)
    ensures h1 == h2
  {
    hide Itoa, Known;
    KnownAfterHeight(tokens, h1);
    KnownAfterHeight(tokens, h2);
    NoHeightKnown(tokens[1..], h1);
    NoHeightKnown(tokens[1..], h2);
    HeightLength(h1);
    HeightLength(h2);
    var a, b, t := Itoa(h1), Itoa(h2), Known(tokens[1..], map[]);
    if |a| < |b| {
      TailRepeats(a, b, t, name);
    } else if |b| < |a| {
      TailRepeats(b, a, t, name);
    }
    assert (a + t)[..|a|] == a && (b + t)[..|b|] == b;
    assert a == name[..|a|] && b == name[..|b|];
    ItoaInjective(h1, h2);
  }

  lemma {:induction false} TellsRunsApartKeeps(tokens: seq<Token>, h1: nat, h2: nat, name: string)
    requires TellsRunsApart(tokens) && h1 <= MaxInt && h2 <= MaxInt
    requires Carries(tokens, h1, name) && Carries(tokens, h2, name)
    ensures h1 == h2
    decreases |tokens|
  {
    hide Itoa, OnlyDigits, NoShortPeriod;
    match tokens[0] {
      case Lit(c) =>
        var rest := tokens[1..];
        var p, q := Known(rest, HeightField(h1)), Known(rest, HeightField(h2));
        assert ([c] + p)[1..] == p && ([c] + q)[1..] == q;
        assert p <= name[1..] && q <= name[1..];
        TellsRunsApartKeeps(rest, h1, h2, name[1..]);
      case Hole(_) =>
        if OnlyDigits(tokens[1..]) {
          RunsApartAfterHeight(tokens, h1, h2, name);
        } else {
          CollisionAfterHeight(tokens, h1, h2, name);
        }
    }
  }

  /** A number that starts with 1 and has up to 18 more digits is a height. */
  lemma OneThenDigits(d: string) returns (h: nat)
    requires d != "" && AllDigits(d) && |d| <= 18
    ensures h != 1 && h <= MaxInt && Itoa(h) == "1" + d
  {
    var run := "1" + d;
    ItoaOfValue(run);
    NineteenDigits(run);
    h := Value(run);
    assert Itoa(1) == "1";
  }

  lemma RunsCollideAfterHeight(tokens: seq<Token>) returns (h: nat)
    requires tokens != [] && tokens[0] == Hole("height") && OnlyDigits(tokens[1..])
    requires !TellsRunsApart(tokens) && OneHeightInDigits(tokens)
    ensures h != 1 && h <= MaxInt && Known(tokens, HeightField(1)) <= Known(tokens, HeightField(h))
  {
    hide OnlyDigits, Known, Itoa, NoShortPeriod, NoHeight;
    var rest := tokens[1..];
    var t := Known(rest, HeightField(1));
    assert Itoa(1) == "1" by {
      ItoaOne();
    }
    OnlyDigitsKnown(rest, 1);
    KnownAfterHeight(tokens, 1);
    if |t| <= 18 {
      h := OneThenDigits(if t == "" then "0" else t);
      KnownAfterHeight(tokens, h);
    } else {
      NoHeightKnown(rest, 1);
      var d := Period(t);
      h := OneThenDigits(t[..d]);
      KnownAfterHeight(tokens, h);
      NoHeightKnown(rest, h);
      PeriodContinues("1", t, d);
    }
  }

  lemma Period(t: string) returns (d: nat)
    requires !NoShortPeriod(t) && |t| > 18
    ensures 1 <= d <= 18 && t[d..] <= t
  {
    d :| 1 <= d <= 18 && t[d..] <= t;
  }

  lemma PeriodContinues(a: string, t: string, d: nat)
    requires d <= |t| && t[d..] <= t
    ensures a + t <= (a + t[..d]) + t
  {
    assert t == t[..d] + t[d..];
    assert a + t == a + t[..d] + t[d..];
  }

  lemma ItoaOne()
    ensures Itoa(1) == "1"
  {
  }

  lemma {:induction false} RunsCollide(tokens: seq<Token>) returns (h1: nat, h2: nat)
    requires !TellsRunsApart(tokens) && OneHeightInDigits(tokens)
    ensures h1 != h2 && h1 <= MaxInt && h2 <= MaxInt
    ensures Known(tokens, HeightField(h1)) <= Known(tokens, HeightField(h2))
    decreases |tokens|
  {
    hide Itoa, OnlyDigits, NoShortPeriod;
    if tokens == [] || (tokens[0].Hole? && tokens[0].name != "height") {
      return 0, 1;
    } else if tokens[0].Lit? {
      h1, h2 := RunsCollide(tokens[1..]);
    } else {
      h2 := RunsCollideAfterHeight(tokens);
      h1 := 1;
    }
  }

  /** The 64-bit heights of a run are told apart by their prefixes exactly when what
  follows the height is a character that is not a digit, or 19 digits or more
  without a period up to 18. */
  lemma RunsCollisionFreeExactly(tokens: seq<Token>)
    requires OneHeightInDigits(tokens)
    ensures RunHeightsNeverCollide(tokens) <==> TellsRunsApart(tokens)
  {
    hide Itoa, OnlyDigits, TellsRunsApart, Known;
    if TellsRunsApart(tokens) {
      forall h1: nat, h2: nat, name | h1 <= MaxInt && h2 <= MaxInt && Carries(tokens, h1, name) && Carries(tokens, h2, name)
        ensures h1 == h2
      {
        TellsRunsApartKeeps(tokens, h1, h2, name);
      }
    } else {
      var h1, h2 := RunsCollide(tokens);
      assert Carries(tokens, h1, Known(tokens, HeightField(h2)));
      assert Carries(tokens, h2, Known(tokens, HeightField(h2)));
    }
  }

  // ----- a closed walk is list and filter -----

  /** The provider answers every listing with exactly the published names that
  have the prefix, each once. */
  ghost predicate Exact(list: Provider, published: set<string>) {
    forall h, p :: ExactAt(list, published, h, p)
  }

  ghost predicate ExactAt(list: Provider, published: set<string>, h: int, p: string) {
    && list(h, p).Some?
    && Distinct(list(h, p).value)
    && forall n :: n in list(h, p).value <==> n in published && p <= n
  }

  ghost predicate Distinct(names: seq<string>) {
    forall i, j :: 0 <= i < j < |names| ==> names[i] != names[j]
  }

  lemma {:induction false} JsonNamesMeaning(names: seq<string>)
    ensures forall n :: n in JsonNames(names) <==> n in names && HasSuffix(n, ".json")
    ensures Distinct(names) ==> Distinct(JsonNames(names))
    decreases |names|
  {
    if names != [] {
      JsonNamesMeaning(names[1..]);
      if Distinct(names) {
        assert names[0] !in names[1..] by {
          assert forall j :: 0 < j < |names| ==> names[0] != names[j];
        }
        assert Distinct(names[1..]);
        var rest := JsonNames(names[1..]);
        assert names[0] !in rest;
      }
    }
  }

  lemma HeightPrefixIsKnown(tmpl: string, h: nat)
    requires Accepted(tmpl, PrecomputedBlocks)
    ensures HeightPrefix(tmpl, h) == Known(Parse(tmpl).value, HeightField(h))
  {
    hide Itoa, Parse, RewriteKnown, Known;
    AcceptedIsClean(tmpl, PrecomputedBlocks);
    HeightDigits(h);
    PrefixIsKnown(tmpl, HeightField(h));
  }

  /** The published block names of one height. */
  ghost predicate IsBlock(tmpl: string, published: set<string>, h: int, n: string)
    requires Parse(tmpl).Ok?
  {
    n in published && HasSuffix(n, ".json") && Carries(Parse(tmpl).value, h, n)
  }

  lemma FoundMeaning(tmpl: string, list: Provider, published: set<string>, h: nat)
    requires Accepted(tmpl, PrecomputedBlocks) && Exact(list, published)
    ensures forall n :: n in FoundAt(tmpl, list, h) <==> IsBlock(tmpl, published, h, n)
    ensures Distinct(FoundAt(tmpl, list, h))
  {
    hide Parse, JsonNames, HeightPrefix, Known, HasSuffix;
    HeightPrefixIsKnown(tmpl, h);
    var p := HeightPrefix(tmpl, h);
    assert ExactAt(list, published, h, p);
    JsonNamesMeaning(list(h, p).value);
  }

  /** The names are in ascending order of height. */
  ghost predicate Ascending(tokens: seq<Token>, names: seq<string>) {
    forall i, j, hi: nat, hj: nat ::
      0 <= i <= j < |names| && Carries(tokens, hi, names[i]) && Carries(tokens, hj, names[j]) ==> hi <= hj
  }

  /** For a delimited template and an exact provider, the names that a walk
  collects are precisely the published block names of the heights in the range,
  each once and ascending by height. */
  lemma {:induction false} CollectedIsFilter(tmpl: string, list: Provider, published: set<string>, start: nat, stop: nat)
    requires Accepted(tmpl, PrecomputedBlocks) && Delimited(Parse(tmpl).value)
    requires Exact(list, published)
    ensures var r := Collected(tmpl, list, start, stop);
      && (forall n :: n in r <==> exists h: nat :: start <= h < stop && IsBlock(tmpl, published, h, n))
      && Distinct(r) && Ascending(Parse(tmpl).value, r)
    decreases stop
  {
    hide Parse, FoundAt, Delimited, Known, HasSuffix, Exact, Carries;
    if start < stop {
      CollectedIsFilter(tmpl, list, published, start, stop - 1);
      FoundMeaning(tmpl, list, published, stop - 1);
      AppendHeight(tmpl, published, start, stop - 1,
                   Collected(tmpl, list, start, stop - 1), FoundAt(tmpl, list, stop - 1));
    }
  }

  lemma AppendHeight(tmpl: string, published: set<string>, start: nat, last: nat, x: seq<string>, y: seq<string>)
    requires Parse(tmpl).Ok? && Delimited(Parse(tmpl).value)
    requires forall n :: n in x <==> exists h: nat :: start <= h < last && IsBlock(tmpl, published, h, n)
    requires forall n :: n in y <==> IsBlock(tmpl, published, last, n)
    requires Distinct(x) && Distinct(y) && Ascending(Parse(tmpl).value, x) && start <= last
    ensures forall n :: n in x + y <==> exists h: nat :: start <= h < last + 1 && IsBlock(tmpl, published, h, n)
    ensures Distinct(x + y) && Ascending(Parse(tmpl).value, x + y)
  {
    hide Parse, Delimited, Known, HasSuffix, Carries;
    var tokens, r := Parse(tmpl).value, x + y;
    forall n, h: nat | n in x && Carries(tokens, h, n) ensures h < last {
      var k: nat :| start <= k < last && IsBlock(tmpl, published, k, n);
      DelimitedKeepsApart(tokens, h, k, n);
    }
    forall n, h: nat | n in y && Carries(tokens, h, n) ensures h == last {
      DelimitedKeepsApart(tokens, h, last, n);
    }
    forall i, j | 0 <= i < j < |r| ensures r[i] != r[j] {
      if i < |x| <= j {
        assert r[i] in x && r[j] in y;
        assert Carries(tokens, last, r[j]);
      }
    }
    forall i, j, hi: nat, hj: nat | 0 <= i <= j < |r| && Carries(tokens, hi, r[i]) && Carries(tokens, hj, r[j])
      ensures hi <= hj
    {
      if j < |x| {
        assert r[i] == x[i] && r[j] == x[j];
      } else {
        assert r[j] in y;
        assert i < |x| ==> r[i] in x;
        assert i >= |x| ==> r[i] in y;
      }
    }
  }

  /** With an exact provider every walk of a delimited template either returns
  the published block names of the heights it covered, or reaches the cap. */
  lemma DiscoveryIsFilter(tmpl: string, list: Provider, published: set<string>, start: nat, end: int, openEnded: bool,
                          r: Result<seq<string>, BlocksError>, stop: int)
    requires Accepted(tmpl, PrecomputedBlocks) && Delimited(Parse(tmpl).value) && Exact(list, published)
    requires WalkResult(tmpl, list, start, end, openEnded, r, stop)
    ensures r.Ok? ==>
      && (forall n :: n in r.value <==> exists h: nat :: start <= h < stop && IsBlock(tmpl, published, h, n))
      && Distinct(r.value) && Ascending(Parse(tmpl).value, r.value)
    ensures r.Err? ==> r.error.CapReached?
  {
    hide Parse, HeightPrefix, Delimited, Ascending, Distinct, Collected;
    CollectedIsFilter(tmpl, list, published, start, stop);
    if r.Err? {
      assert ExactAt(list, published, stop - 1, HeightPrefix(tmpl, stop - 1));
    }
  }
}
