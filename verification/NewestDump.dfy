/** The choice of the newest archive dump in cmd/archive.go. */
module NewestDump {
  import opened GoText
  import opened Template

  // ----- hours -----

  /** A time of day in HHMM form, 0000 to 2359. */
  predicate ValidHour(s: string) {
    && |s| == 4 && AllDigits(s)
    && (s[0] == '0' || s[0] == '1' || (s[0] == '2' && s[1] <= '3'))
    && s[2] <= '5'
  }

  function TwoDigits(n: nat): string
    requires n < 100
  {
    [DigitChar(n / 10), DigitChar(n % 10)]
  }

  /** The hour and the minute of a day, as a name shows them. */
  function Clock(h: nat, m: nat): string
    requires h < 24 && m < 60
  {
    TwoDigits(h) + TwoDigits(m)
  }

  lemma TwoDigitsOf(a: char, b: char)
    requires IsDigit(a) && IsDigit(b)
    ensures var n := 10 * DigitValue(a) + DigitValue(b); n < 100 && TwoDigits(n) == [a, b]
  {
    assert DigitChar(DigitValue(a)) == a && DigitChar(DigitValue(b)) == b;
  }

  /** The valid hours are the 1440 times of a day. */
  lemma ValidHourIsTime(s: string)
    ensures ValidHour(s) <==> exists h: nat, m: nat :: h < 24 && m < 60 && s == Clock(h, m)
  {
    if ValidHour(s) {
      TwoDigitsOf(s[0], s[1]);
      TwoDigitsOf(s[2], s[3]);
      var h, m := 10 * DigitValue(s[0]) + DigitValue(s[1]), 10 * DigitValue(s[2]) + DigitValue(s[3]);
      assert s == [s[0], s[1]] + [s[2], s[3]];
      assert h < 24 && m < 60 && s == Clock(h, m);
    }
    if h: nat, m: nat :| h < 24 && m < 60 && s == Clock(h, m) {
      ClockIsValid(h, m);
    }
  }

  lemma ClockIsValid(h: nat, m: nat)
    requires h < 24 && m < 60
    ensures ValidHour(Clock(h, m)) && Minutes(Clock(h, m)) == 60 * h + m
  {
    var s := Clock(h, m);
    assert s == [DigitChar(h / 10), DigitChar(h % 10), DigitChar(m / 10), DigitChar(m % 10)];
  }

  /** The comparison of Go strings: byte by byte. */
  predicate Less(a: string, b: string) {
    if b == "" then false
    else if a == "" then true
    else if a[0] != b[0] then a[0] < b[0]
    else Less(a[1..], b[1..])
  }

  function Minutes(hour: string): nat
    requires ValidHour(hour)
  {
    60 * (10 * DigitValue(hour[0]) + DigitValue(hour[1])) + 10 * DigitValue(hour[2]) + DigitValue(hour[3])
  }

  /** String order on valid hours is time order. */
  lemma LessIsEarlier(a: string, b: string)
    requires ValidHour(a) && ValidHour(b)
    ensures Less(a, b) <==> Minutes(a) < Minutes(b)
  {
    LessStep(a, b);
    LessStep(a[1..], b[1..]);
    LessStep(a[2..], b[2..]);
    LessStep(a[3..], b[3..]);
    assert a[1..][1..] == a[2..] && b[1..][1..] == b[2..];
    assert a[2..][1..] == a[3..] && b[2..][1..] == b[3..];
    assert !Less(a[3..][1..], b[3..][1..]);
  }

  lemma LessStep(a: string, b: string)
    requires a != "" && b != ""
    ensures Less(a, b) <==> a[0] < b[0] || (a[0] == b[0] && Less(a[1..], b[1..]))
  {
  }

  // ----- dumps of a day -----

  datatype DumpError = BadTemplate(error: TemplateError) | ListFailed(day: string) | NoDump

  /** What the provider answers when it is asked to list a prefix for a day. */
  type Provider = (string, string) -> Option<seq<string>>

  function DayFields(day: string): Fields {
    map["date" := day]
  }

  function DumpFields(day: string, hour: string): Fields {
    map["date" := day, "hour" := hour]
  }

  /** The name n is the template with the day and a valid hour. */
  predicate IsDump(tmpl: string, day: string, hour: string, n: string)
    requires Parse(tmpl).Ok?
  {
    ValidHour(hour) && Rendered(Parse(tmpl).value, DumpFields(day, hour)) == Ok(n)
  }

  ghost predicate HasDump(tmpl: string, day: string, names: set<string>)
    requires Parse(tmpl).Ok?
  {
    exists n, hour :: n in names && IsDump(tmpl, day, hour, n)
  }

  /** n is the dump of the day with the greatest hour among names. */
  ghost predicate Newest(tmpl: string, day: string, names: set<string>, n: string)
    requires Parse(tmpl).Ok?
  {
    exists hour :: n in names && IsDump(tmpl, day, hour, n) && NoneLater(tmpl, day, names, hour)
  }

  ghost predicate NoneLater(tmpl: string, day: string, names: set<string>, hour: string)
    requires Parse(tmpl).Ok? && ValidHour(hour)
  {
    forall m, h :: m in names && IsDump(tmpl, day, h, m) ==> Minutes(h) <= Minutes(hour)
  }

  function Members(names: seq<string>): set<string> {
    set n | n in names
  }

  /** A template of archive dumps with an hour, and a value for the date. */
  predicate Usable(tmpl: string, day: string) {
    Accepted(tmpl, ArchiveDump) && Hole("hour") in Parse(tmpl).value && '{' !in day
  }

  /** The text of the template before the hour. */
  function DayPrefix(tmpl: string, day: string): string
    requires Parse(tmpl).Ok?
  {
    Known(Parse(tmpl).value, DayFields(day))
  }

  /** Up to the hour, prefix and name agree, and then the name has the hour. */
  lemma {:induction false} HourFollowsPrefix(tokens: seq<Token>, day: string, hour: string)
    requires Hole("hour") in tokens
    requires forall t :: t in tokens && t.Hole? ==> t.name == "date" || t.name == "hour"
    ensures Known(tokens, DayFields(day)) + hour <= Substitute(tokens, DumpFields(day, hour))
    decreases |tokens|
  {
    var t := tokens[0];
    if t == Hole("hour") {
    } else {
      assert t.Hole? ==> t.name == "date";
      assert Hole("hour") in tokens[1..];
      HourFollowsPrefix(tokens[1..], day, hour);
      var w := if t.Lit? then [t.c] else day;
      assert Known(tokens, DayFields(day)) + hour == w + (Known(tokens[1..], DayFields(day)) + hour);
    }
  }

  /** The hour of a dump is read back from its name. */
  lemma DumpShowsItsHour(tmpl: string, day: string, hour: string, n: string)
    requires Usable(tmpl, day) && IsDump(tmpl, day, hour, n)
    ensures var rest := TrimPrefix(n, DayPrefix(tmpl, day));
      DayPrefix(tmpl, day) <= n && |rest| >= 4 && rest[..4] == hour && |n| >= 4
  {
    hide Parse, Known, Substitute;
    var tokens := Parse(tmpl).value;
    HourFollowsPrefix(tokens, day, hour);
    var p := DayPrefix(tmpl, day);
    assert n == Substitute(tokens, DumpFields(day, hour));
    assert n[..|p|] == p && n[|p|..][..4] == hour;
  }

  /** The hour that the loop reads from a listed name, if it is one. */
  function ReadHour(prefix: string, n: string): Option<string> {
    var rest := TrimPrefix(n, prefix);
    if |rest| < 4 || !ValidHour(rest[..4]) then None else Some(rest[..4])
  }

  lemma RenderedDump(tmpl: string, day: string, hour: string)
    requires Usable(tmpl, day) && ValidHour(hour)
    ensures Clean(Parse(tmpl).value) && BraceFree(DumpFields(day, hour)) && BraceFree(DayFields(day))
  {
    hide Parse;
    AcceptedIsClean(tmpl, ArchiveDump);
    assert forall i :: 0 <= i < |hour| ==> hour[i] != '{';
  }

  /** What the loop over the names of a day knows after some of them. */
  ghost predicate BestSoFar(tmpl: string, day: string, names: set<string>, best: string, bestHour: string)
    requires Parse(tmpl).Ok?
  {
    if bestHour == "" then best == "" && !HasDump(tmpl, day, names)
    else best != "" && best in names && IsDump(tmpl, day, bestHour, best) && NoneLater(tmpl, day, names, bestHour)
  }

  lemma SkipName(tmpl: string, day: string, names: set<string>, best: string, bestHour: string, n: string)
    requires Usable(tmpl, day) && BestSoFar(tmpl, day, names, best, bestHour)
    requires match ReadHour(DayPrefix(tmpl, day), n)
      case None => true
      case Some(hour) => !IsDump(tmpl, day, hour, n) || (bestHour != "" && !Less(bestHour, hour))
    ensures BestSoFar(tmpl, day, names + {n}, best, bestHour)
  {
    hide Parse, IsDump, DayPrefix;
    if bestHour != "" {
      DumpIsValid(tmpl, day, bestHour, best);
    }
    forall h | IsDump(tmpl, day, h, n)
      ensures bestHour != "" && ValidHour(h) && Minutes(h) <= Minutes(bestHour)
    {
      DumpIsRead(tmpl, day, h, n);
      if bestHour != "" {
        LessIsEarlier(bestHour, h);
      }
    }
  }

  lemma DumpIsValid(tmpl: string, day: string, hour: string, n: string)
    requires Parse(tmpl).Ok? && IsDump(tmpl, day, hour, n)
    ensures ValidHour(hour)
  {
  }

  lemma DumpIsRead(tmpl: string, day: string, hour: string, n: string)
    requires Usable(tmpl, day) && IsDump(tmpl, day, hour, n)
    ensures ReadHour(DayPrefix(tmpl, day), n) == Some(hour) && n != "" && ValidHour(hour)
  {
    hide Parse, DayPrefix;
    DumpShowsItsHour(tmpl, day, hour, n);
  }

  lemma TakeName(tmpl: string, day: string, names: set<string>, best: string, bestHour: string, n: string, hour: string)
    requires Usable(tmpl, day) && BestSoFar(tmpl, day, names, best, bestHour)
    requires IsDump(tmpl, day, hour, n) && Less(bestHour, hour)
    ensures BestSoFar(tmpl, day, names + {n}, n, hour)
  {
    hide Parse, IsDump, DayPrefix;
    DumpIsRead(tmpl, day, hour, n);
    forall m, h | m in names + {n} && IsDump(tmpl, day, h, m)
      ensures ValidHour(h) && Minutes(h) <= Minutes(hour)
    {
      DumpIsRead(tmpl, day, h, m);
      if m != n {
        DumpIsValid(tmpl, day, bestHour, best);
        LessIsEarlier(bestHour, hour);
      }
    }
  }

  method NewestOfDay(tmpl: string, day: string, prefix: string, names: seq<string>)
    returns (best: string, bestHour: string)
    ensures Usable(tmpl, day) && prefix == DayPrefix(tmpl, day) ==>
      BestSoFar(tmpl, day, Members(names), best, bestHour)
  {
    hide Parse, IsDump, DayPrefix, BestSoFar, Rendered, ValidHour, Less;
    ghost var usable := Usable(tmpl, day) && prefix == DayPrefix(tmpl, day);
    best, bestHour := "", "";
    var k := 0;
    if usable {
      NothingYet(tmpl, day);
    }
    while k < |names|
      invariant 0 <= k <= |names|
      invariant usable ==> BestSoFar(tmpl, day, Members(names[..k]), best, bestHour)
    {
      var n := names[k];
      assert Members(names[..k + 1]) == Members(names[..k]) + {n};
      k := k + 1;
      var rest := TrimPrefix(n, prefix);
      if |rest| < 4 || !ValidHour(rest[..4]) {
        if usable {
          SkipName(tmpl, day, Members(names[..k - 1]), best, bestHour, n);
        }
        continue;
      }
      var hour := rest[..4];
      var want := Render(tmpl, DumpFields(day, hour));
      if usable {
        RenderedDump(tmpl, day, hour);
        DumpIs(tmpl, day, hour, n);
      }
      if want.Err? || want.value != n {
        if usable {
          SkipName(tmpl, day, Members(names[..k - 1]), best, bestHour, n);
        }
        continue;
      }
      if Less(bestHour, hour) {
        if usable {
          TakeName(tmpl, day, Members(names[..k - 1]), best, bestHour, n, hour);
        }
        best, bestHour := n, hour;
      } else if usable {
        NotLess(bestHour, hour);
        SkipName(tmpl, day, Members(names[..k - 1]), best, bestHour, n);
      }
    }
    assert names[..k] == names;
  }

  lemma NothingYet(tmpl: string, day: string)
    requires Usable(tmpl, day)
    ensures BestSoFar(tmpl, day, Members([]), "", "")
  {
  }

  lemma DumpIs(tmpl: string, day: string, hour: string, n: string)
    requires Parse(tmpl).Ok? && ValidHour(hour)
    ensures IsDump(tmpl, day, hour, n) <==> Rendered(Parse(tmpl).value, DumpFields(day, hour)) == Ok(n)
  {
  }

  lemma NotLess(a: string, b: string)
    requires !Less(a, b) && b != ""
    ensures a != ""
  {
  }

  // ----- the days -----

  predicate Contains(s: string, p: string) {
    exists i :: 0 <= i <= |s| && OccursAt(s, p, i)
  }

  predicate OccursAt(s: string, p: string, i: nat) {
    i + |p| <= |s| && s[i..i + |p|] == p
  }

  /** The text test for an hour agrees with the tokens. */
  lemma {:induction false} ContainsPlaceholder(tokens: seq<Token>, n: string)
    requires Clean(tokens) && '{' !in n && '}' !in n
    ensures Contains(Text(tokens), Placeholder(n)) <==> Hole(n) in tokens
    decreases |tokens|
  {
    var p := Placeholder(n);
    if tokens == [] {
      assert Text(tokens) == "";
    } else {
      hide Text;
      var head, tail := TokenText(tokens[0]), Text(tokens[1..]);
      TextSplits(tokens);
      assert CleanToken(tokens[0]);
      ContainsPlaceholder(tokens[1..], n);
      if Contains(tail, p) {
        ContainsInTail(head, tail, p);
      }
      if tokens[0] == Hole(n) {
        assert OccursAt(head + tail, p, 0);
      } else if Contains(head + tail, p) {
        NotInHead(tokens[0], tail, n);
      }
    }
  }

  lemma TextSplits(tokens: seq<Token>)
    requires tokens != []
    ensures Text(tokens) == TokenText(tokens[0]) + Text(tokens[1..])
  {
  }

  lemma ContainsInTail(head: string, tail: string, p: string)
    requires Contains(tail, p)
    ensures Contains(head + tail, p)
  {
    var i :| 0 <= i <= |tail| && OccursAt(tail, p, i);
    assert OccursAt(head + tail, p, |head| + i);
  }

  lemma NotInHead(t: Token, tail: string, n: string)
    requires CleanToken(t) && t != Hole(n) && '{' !in n && '}' !in n
    requires Contains(TokenText(t) + tail, Placeholder(n))
    ensures Contains(tail, Placeholder(n))
  {
    hide TokenText, Placeholder, CleanToken;
    var p, head := Placeholder(n), TokenText(t);
    var w := head + tail;
    var i :| 0 <= i <= |w| && OccursAt(w, p, i);
    if i < |head| {
      HeadStartsNone(t, tail, n, i);
    }
    OccursInTail(head, tail, p, i);
  }

  lemma OccursInTail(head: string, tail: string, p: string, i: nat)
    requires |head| <= i && OccursAt(head + tail, p, i)
    ensures Contains(tail, p)
  {
    var w, j := head + tail, i - |head|;
    forall k | 0 <= k < |p| ensures tail[j..j + |p|][k] == p[k] {
      assert p[k] == w[i..i + |p|][k] == w[i + k];
    }
    assert OccursAt(tail, p, j);
  }

  lemma HeadStartsNone(t: Token, tail: string, n: string, i: nat)
    requires CleanToken(t) && t != Hole(n) && '{' !in n && '}' !in n
    requires i < |TokenText(t)|
    ensures !OccursAt(TokenText(t) + tail, Placeholder(n), i)
  {
    var p, head := Placeholder(n), TokenText(t);
    var w := head + tail;
    assert p[0] == '{';
    assert i + |p| <= |w| ==> w[i..i + |p|][0] == head[i];
    if t.Lit? {
      assert head[i] == t.c != '{';
    } else {
      if i == 0 {
        OtherHoleDiffers(t.name, tail, n);
        assert |p| <= |w| ==> w[0..|p|] == w[..|p|];
      } else {
        assert head[i] != '{';
      }
    }
  }

  function ListedOn(tmpl: string, list: Provider, day: string): Option<seq<string>>
    requires Parse(tmpl).Ok?
  {
    list(day, DayPrefix(tmpl, day))
  }

  /** The first k days were listed and had no dump. */
  ghost predicate NoneBefore(tmpl: string, list: Provider, days: seq<string>, k: nat)
    requires Parse(tmpl).Ok? && k <= |days|
  {
    forall j :: 0 <= j < k ==>
      ListedOn(tmpl, list, days[j]).Some? && !HasDump(tmpl, days[j], Members(ListedOn(tmpl, list, days[j]).value))
  }

  /** The result is decided by day k, the first with a dump or a failing listing. */
  ghost predicate DecidedBy(tmpl: string, list: Provider, days: seq<string>, k: nat, r: Result<string, DumpError>)
    requires Parse(tmpl).Ok? && k < |days|
  {
    && NoneBefore(tmpl, list, days, k)
    && match ListedOn(tmpl, list, days[k])
       case None => r == Err(ListFailed(days[k]))
       case Some(names) => r.Ok? && Newest(tmpl, days[k], Members(names), r.value)
  }

  /** What newestDump promises for a template with an hour. */
  ghost predicate Decided(tmpl: string, list: Provider, days: seq<string>, r: Result<string, DumpError>)
    requires Parse(tmpl).Ok?
  {
    || (r == Err(NoDump) && NoneBefore(tmpl, list, days, |days|))
    || exists k :: 0 <= k < |days| && DecidedBy(tmpl, list, days, k, r)
  }

  predicate UsableDays(tmpl: string, days: seq<string>) {
    Accepted(tmpl, ArchiveDump) && forall k :: 0 <= k < |days| ==> Usable(tmpl, days[k])
  }

  method NewestDump(tmpl: string, list: Provider, days: seq<string>) returns (r: Result<string, DumpError>)
    requires days != []
    ensures UsableDays(tmpl, days) ==> Decided(tmpl, list, days, r)
    ensures Accepted(tmpl, ArchiveDump) && Hole("hour") !in Parse(tmpl).value && '{' !in days[0] ==>
      r == match Rendered(Parse(tmpl).value, DayFields(days[0]))
           case Ok(n) => Ok(n)
           case Err(e) => Err(BadTemplate(e))
  {
    hide Parse, Rendered, DayPrefix, DecidedBy, BestSoFar, NoneBefore, Clean;
    if Accepted(tmpl, ArchiveDump) {
      HourTest(tmpl);
    }
    if !Contains(tmpl, Placeholder("hour")) {
      var one := Render(tmpl, DayFields(days[0]));
      return match one
        case Ok(n) => Ok(n)
        case Err(e) => Err(BadTemplate(e));
    }
    ghost var usable := UsableDays(tmpl, days);
    var k := 0;
    if usable {
      NoneBeforeFirst(tmpl, list, days);
    }
    while k < |days|
      invariant 0 <= k <= |days|
      invariant usable ==> NoneBefore(tmpl, list, days, k)
    {
      var day := days[k];
      var prefix := Prefix(tmpl, DayFields(day));
      if usable {
        DayIsUsable(tmpl, days, k);
      }
      if prefix.Err? {
        return Err(BadTemplate(prefix.error));
      }
      var names := list(day, prefix.value);
      if names.None? {
        if usable {
          DayFails(tmpl, list, days, k);
        }
        return Err(ListFailed(day));
      }
      var best, bestHour := NewestOfDay(tmpl, day, prefix.value, names.value);
      if usable {
        DayDecides(tmpl, list, days, k, best, bestHour);
      }
      if best != "" {
        return Ok(best);
      }
      k := k + 1;
    }
    return Err(NoDump);
  }

  lemma HourTest(tmpl: string)
    requires Accepted(tmpl, ArchiveDump)
    ensures Contains(tmpl, Placeholder("hour")) <==> Hole("hour") in Parse(tmpl).value
    ensures Clean(Parse(tmpl).value)
  {
    hide Parse, Text;
    AcceptedIsClean(tmpl, ArchiveDump);
    ParseSpells(tmpl);
    ContainsPlaceholder(Parse(tmpl).value, "hour");
  }

  lemma DayIsUsable(tmpl: string, days: seq<string>, k: nat)
    requires UsableDays(tmpl, days) && k < |days|
    ensures Clean(Parse(tmpl).value) && BraceFree(DayFields(days[k]))
    ensures Known(Parse(tmpl).value, DayFields(days[k])) == DayPrefix(tmpl, days[k])
    ensures Usable(tmpl, days[k])
  {
    hide Parse, Clean;
    AcceptedIsClean(tmpl, ArchiveDump);
  }

  lemma NoneBeforeFirst(tmpl: string, list: Provider, days: seq<string>)
    requires Parse(tmpl).Ok?
    ensures NoneBefore(tmpl, list, days, 0)
  {
  }

  lemma DayFails(tmpl: string, list: Provider, days: seq<string>, k: nat)
    requires Parse(tmpl).Ok? && k < |days| && NoneBefore(tmpl, list, days, k)
    requires list(days[k], DayPrefix(tmpl, days[k])).None?
    ensures DecidedBy(tmpl, list, days, k, Err(ListFailed(days[k])))
  {
    hide Parse, DayPrefix, NoneBefore;
  }

  lemma DayDecides(tmpl: string, list: Provider, days: seq<string>, k: nat, best: string, bestHour: string)
    requires Parse(tmpl).Ok? && k < |days| && NoneBefore(tmpl, list, days, k)
    requires list(days[k], DayPrefix(tmpl, days[k])).Some?
    requires BestSoFar(tmpl, days[k], Members(list(days[k], DayPrefix(tmpl, days[k])).value), best, bestHour)
    ensures best != "" ==> DecidedBy(tmpl, list, days, k, Ok(best))
    ensures best == "" ==> NoneBefore(tmpl, list, days, k + 1)
  {
    hide Parse, DayPrefix, IsDump, HasDump;
    if best != "" {
      hide NoneBefore;
      var names := Members(list(days[k], DayPrefix(tmpl, days[k])).value);
      assert Newest(tmpl, days[k], names, best);
    }
  }

  // ----- complete over what is published -----

  /** The listing of a day is exactly the published names with its prefix. */
  ghost predicate ExactOn(tmpl: string, list: Provider, published: set<string>, day: string)
    requires Parse(tmpl).Ok?
  {
    && ListedOn(tmpl, list, day).Some?
    && forall n :: n in ListedOn(tmpl, list, day).value <==> n in published && DayPrefix(tmpl, day) <= n
  }

  /** Listing by prefix misses no dump, so looking at the listing is looking at
  everything that is published. */
  lemma ListingIsEnough(tmpl: string, list: Provider, published: set<string>, day: string, n: string)
    requires Usable(tmpl, day) && ExactOn(tmpl, list, published, day)
    ensures var names := Members(ListedOn(tmpl, list, day).value);
      && (HasDump(tmpl, day, names) <==> HasDump(tmpl, day, published))
      && (Newest(tmpl, day, names, n) <==> Newest(tmpl, day, published, n))
  {
    hide Parse, DayPrefix, IsDump;
    var names := Members(ListedOn(tmpl, list, day).value);
    forall m, h | IsDump(tmpl, day, h, m)
      ensures ValidHour(h) && (m in names <==> m in published)
    {
      DumpIsValid(tmpl, day, h, m);
      DumpShowsItsHour(tmpl, day, h, m);
    }
  }

  /** The result is the newest published dump of the first day that has one, and
  it is an error exactly when no day has one. */
  ghost predicate NewestPublished(tmpl: string, published: set<string>, days: seq<string>, r: Result<string, DumpError>)
    requires Parse(tmpl).Ok?
  {
    if forall j :: 0 <= j < |days| ==> !HasDump(tmpl, days[j], published) then r == Err(NoDump)
    else r.Ok? && exists k :: 0 <= k < |days| && FirstDay(tmpl, published, days, k) && Newest(tmpl, days[k], published, r.value)
  }

  ghost predicate FirstDay(tmpl: string, published: set<string>, days: seq<string>, k: nat)
    requires Parse(tmpl).Ok? && k < |days|
  {
    HasDump(tmpl, days[k], published) && forall j :: 0 <= j < k ==> !HasDump(tmpl, days[j], published)
  }

  lemma NewestIsComplete(tmpl: string, list: Provider, published: set<string>, days: seq<string>, r: Result<string, DumpError>)
    requires Parse(tmpl).Ok? && UsableDays(tmpl, days) && Decided(tmpl, list, days, r)
    requires forall k :: 0 <= k < |days| ==> ExactOn(tmpl, list, published, days[k])
    ensures NewestPublished(tmpl, published, days, r)
  {
    hide Parse, DayPrefix, IsDump, HasDump, Newest, ExactOn;
    var n := if r.Ok? then r.value else "";
    forall j | 0 <= j < |days|
      ensures ListedOn(tmpl, list, days[j]).Some?
      ensures var names := Members(ListedOn(tmpl, list, days[j]).value);
        && (HasDump(tmpl, days[j], names) <==> HasDump(tmpl, days[j], published))
        && (Newest(tmpl, days[j], names, n) <==> Newest(tmpl, days[j], published, n))
        && (Newest(tmpl, days[j], published, n) ==> HasDump(tmpl, days[j], published))
    {
      ExactMeans(tmpl, list, published, days[j]);
      ListingIsEnough(tmpl, list, published, days[j], n);
      NewestIsOne(tmpl, days[j], published, n);
    }
    if r != Err(NoDump) {
      var k :| 0 <= k < |days| && DecidedBy(tmpl, list, days, k, r);
      assert FirstDay(tmpl, published, days, k);
    }
  }

  lemma ExactMeans(tmpl: string, list: Provider, published: set<string>, day: string)
    requires Parse(tmpl).Ok? && ExactOn(tmpl, list, published, day)
    ensures ListedOn(tmpl, list, day).Some?
  {
  }

  lemma NewestIsOne(tmpl: string, day: string, names: set<string>, n: string)
    requires Parse(tmpl).Ok?
    ensures Newest(tmpl, day, names, n) ==> HasDump(tmpl, day, names)
  {
    hide IsDump, Parse;
  }

  // ----- over the times of a day -----

  /** n is published, and is the name of the dump of that time. */
  ghost predicate PublishedAt(tmpl: string, published: set<string>, day: string, h: nat, m: nat, n: string)
    requires Parse(tmpl).Ok?
  {
    h < 24 && m < 60 && n in published && Rendered(Parse(tmpl).value, DumpFields(day, Clock(h, m))) == Ok(n)
  }

  ghost predicate NothingAt(tmpl: string, published: set<string>, day: string)
    requires Parse(tmpl).Ok?
  {
    forall h: nat, m: nat, n :: !PublishedAt(tmpl, published, day, h, m, n)
  }

  /** n is the dump of that time, and no dump of the day has a later one. */
  ghost predicate LatestAt(tmpl: string, published: set<string>, day: string, h: nat, m: nat, n: string)
    requires Parse(tmpl).Ok?
  {
    && PublishedAt(tmpl, published, day, h, m, n)
    && forall h': nat, m': nat, n' :: PublishedAt(tmpl, published, day, h', m', n') ==> 60 * h' + m' <= 60 * h + m
  }

  lemma DumpAt(tmpl: string, published: set<string>, day: string, h: nat, m: nat, n: string)
    requires Parse(tmpl).Ok? && h < 24 && m < 60
    ensures PublishedAt(tmpl, published, day, h, m, n) <==> n in published && IsDump(tmpl, day, Clock(h, m), n)
    ensures ValidHour(Clock(h, m)) && Minutes(Clock(h, m)) == 60 * h + m
  {
    hide Parse, Rendered, ValidHour, Clock;
    ClockIsValid(h, m);
  }

  lemma TimeOf(hour: string) returns (h: nat, m: nat)
    requires ValidHour(hour)
    ensures h < 24 && m < 60 && hour == Clock(h, m)
  {
    ValidHourIsTime(hour);
    h, m :| h < 24 && m < 60 && hour == Clock(h, m);
  }

  lemma NothingIsNoDump(tmpl: string, published: set<string>, day: string)
    requires Parse(tmpl).Ok?
    ensures NothingAt(tmpl, published, day) <==> !HasDump(tmpl, day, published)
  {
    hide Parse, Rendered, ValidHour, Clock, IsDump, PublishedAt;
    if HasDump(tmpl, day, published) {
      var n, hour :| n in published && IsDump(tmpl, day, hour, n);
      DumpIsValid(tmpl, day, hour, n);
      var h, m := TimeOf(hour);
      DumpAt(tmpl, published, day, h, m, n);
      assert PublishedAt(tmpl, published, day, h, m, n);
    }
    if h: nat, m: nat, n :| PublishedAt(tmpl, published, day, h, m, n) {
      PublishedIsInDay(tmpl, published, day, h, m, n);
      DumpAt(tmpl, published, day, h, m, n);
    }
  }

  lemma PublishedIsInDay(tmpl: string, published: set<string>, day: string, h: nat, m: nat, n: string)
    requires Parse(tmpl).Ok? && PublishedAt(tmpl, published, day, h, m, n)
    ensures h < 24 && m < 60
  {
  }

  lemma NewestHour(tmpl: string, published: set<string>, day: string, n: string) returns (hour: string)
    requires Parse(tmpl).Ok? && Newest(tmpl, day, published, n)
    ensures ValidHour(hour) && n in published && IsDump(tmpl, day, hour, n) && NoneLater(tmpl, day, published, hour)
  {
    hide Parse, Rendered;
    hour :| n in published && IsDump(tmpl, day, hour, n) && NoneLater(tmpl, day, published, hour);
  }

  lemma NewestIsLatest(tmpl: string, published: set<string>, day: string, n: string)
    requires Parse(tmpl).Ok? && Newest(tmpl, day, published, n)
    ensures exists h: nat, m: nat :: LatestAt(tmpl, published, day, h, m, n)
  {
    hide Parse, Rendered, ValidHour, Clock, IsDump, PublishedAt, Minutes, Newest;
    var hour := NewestHour(tmpl, published, day, n);
    var h, m := TimeOf(hour);
    DumpAt(tmpl, published, day, h, m, n);
    forall h': nat, m': nat, n' | PublishedAt(tmpl, published, day, h', m', n')
      ensures 60 * h' + m' <= 60 * h + m
    {
      PublishedIsInDay(tmpl, published, day, h', m', n');
      DumpAt(tmpl, published, day, h', m', n');
    }
    assert LatestAt(tmpl, published, day, h, m, n);
  }

  /** With exact listings: the result is an error exactly when no day has a dump at any
  of the times from 0000 to 2359, and otherwise the latest dump of the first day that
  has one. */
  lemma NewestOverAllTimes(tmpl: string, list: Provider, published: set<string>, days: seq<string>, r: Result<string, DumpError>)
    requires Parse(tmpl).Ok? && UsableDays(tmpl, days) && Decided(tmpl, list, days, r)
    requires forall k :: 0 <= k < |days| ==> ExactOn(tmpl, list, published, days[k])
    ensures r == Err(NoDump) <==> forall k :: 0 <= k < |days| ==> NothingAt(tmpl, published, days[k])
    ensures r != Err(NoDump) ==> r.Ok? && exists k, h: nat, m: nat ::
      0 <= k < |days| && (forall j :: 0 <= j < k ==> NothingAt(tmpl, published, days[j]))
      && LatestAt(tmpl, published, days[k], h, m, r.value)
  {
    hide Parse, IsDump, HasDump, Newest, ExactOn, Decided, NothingAt, LatestAt;
    NewestIsComplete(tmpl, list, published, days, r);
    forall k | 0 <= k < |days| ensures NothingAt(tmpl, published, days[k]) <==> !HasDump(tmpl, days[k], published) {
      NothingIsNoDump(tmpl, published, days[k]);
    }
    if r != Err(NoDump) {
      var k :| 0 <= k < |days| && FirstDay(tmpl, published, days, k) && Newest(tmpl, days[k], published, r.value);
      NewestIsLatest(tmpl, published, days[k], r.value);
      var h: nat, m: nat :| LatestAt(tmpl, published, days[k], h, m, r.value);
    }
  }
}
