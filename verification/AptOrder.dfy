/** What the order of Debian versions says about the characters of a version, in the
words of section 5.6.12 of the Debian Policy Manual: letters before all other
characters, and a tilde before everything, even the end. */
module AptOrder {
  import opened GoText
  import opened AptVersion

  predicate IsLetter(c: char) {
    'a' <= c <= 'z' || 'A' <= c <= 'Z'
  }

  /** The order of two characters that are not digits: the tilde, then the letters,
  then the others, each group by its bytes. */
  predicate SortsBefore(c: char, d: char) {
    if c == '~' || d == '~' then c == '~' && d != '~'
    else if IsLetter(c) != IsLetter(d) then IsLetter(c)
    else c < d
  }

  /** A character of a version that is not part of a number. */
  predicate IsMark(c: char) {
    !IsDigit(c) && c != '\0' && c as int < 256
  }

  predicate Unnumbered(u: string) {
    u == "" || !IsDigit(u[|u| - 1])
  }

  predicate MarkFirst(x: string) {
    x == "" || !IsDigit(x[0])
  }

  lemma {:induction false} RunIs(w: string, n: nat)
    requires n <= |w| && (n == |w| || !IsDigit(w[n]))
    requires forall k :: 0 <= k < n ==> IsDigit(w[k])
    ensures RunLength(w) == n
    decreases n
  {
    if n > 0 {
      RunIs(w[1..], n - 1);
    }
  }

  lemma RunOfPrefix(u: string, x: string)
    requires u != "" && IsDigit(u[0]) && (Unnumbered(u) || MarkFirst(x))
    ensures RunLength(u + x) == RunLength(u)
    ensures (u + x)[..RunLength(u)] == u[..RunLength(u)]
    ensures (u + x)[RunLength(u)..] == u[RunLength(u)..] + x
  {
    var n := RunLength(u);
    var w := u + x;
    assert forall k :: 0 <= k < n ==> w[k] == u[..n][k];
    assert n == |u| ==> u[n - 1] == u[..n][n - 1];
    RunIs(w, n);
    assert w[..n] == u[..n];
  }

  lemma SameRuns(r: string)
    ensures CompareRuns(r, r) == 0
  {
    FirstDiffAntisymmetric(StripZeros(r), StripZeros(r));
  }

  /** A common start does not decide, unless it ends inside a number. */
  lemma {:induction false} PrefixCancels(u: string, x: string, y: string)
    requires Unnumbered(u) || (MarkFirst(x) && MarkFirst(y))
    ensures Fragment(u + x, u + y) == Fragment(x, y)
    decreases |u|
  {
    hide Fragment, CompareRuns, RunLength;
    if u == "" {
      assert u + x == x && u + y == y;
    } else if !IsDigit(u[0]) {
      assert (u + x)[1..] == u[1..] + x && (u + y)[1..] == u[1..] + y;
      FragmentAtNonDigit(u + x, u + y);
      PrefixCancels(u[1..], x, y);
    } else {
      var n := RunLength(u);
      RunOfPrefix(u, x);
      RunOfPrefix(u, y);
      FragmentAtRuns(u + x, u + y);
      SameRuns(u[..n]);
      assert u[n..] != "" ==> u[n..][|u| - n - 1] == u[|u| - 1];
      PrefixCancels(u[n..], x, y);
    }
  }

  /** Whatever comes before and after, a tilde is before the end. */
  lemma TildeIsBeforeEnd(u: string, s: string)
    ensures Fragment(u + ("~" + s), u) < 0
  {
    PrefixCancels(u, "~" + s, "");
    assert u + "" == u;
  }

  /** The end is before every other mark. */
  lemma EndIsBeforeMark(u: string, c: char, s: string)
    requires IsMark(c) && c != '~'
    ensures Fragment(u, u + ([c] + s)) < 0
  {
    PrefixCancels(u, "", [c] + s);
    assert u + "" == u;
  }

  /** At the first place where two versions have different marks, the order of the
  marks decides. */
  lemma MarksDecide(u: string, c: char, s: string, d: char, t: string)
    requires IsMark(c) && IsMark(d) && c != d
    ensures Fragment(u + ([c] + s), u + ([d] + t)) < 0 <==> SortsBefore(c, d)
    ensures Fragment(u + ([c] + s), u + ([d] + t)) > 0 <==> SortsBefore(d, c)
  {
    PrefixCancels(u, [c] + s, [d] + t);
  }

  /** Where one version goes on with a number and the other with a mark, the tilde is
  before the number and every other mark after it. */
  lemma MarkAgainstNumber(u: string, c: char, s: string, d: char, t: string)
    requires IsMark(c) && IsDigit(d) && Unnumbered(u)
    ensures var order := Fragment(u + ([c] + s), u + ([d] + t));
      if c == '~' then order < 0 else order > 0
  {
    PrefixCancels(u, [c] + s, [d] + t);
  }

  // ----- whole versions -----

  predicate Simple(v: string) {
    Trimmed(v) && ':' !in v && '-' !in v
  }

  lemma SimpleParts(v: string)
    requires Simple(v)
    ensures SplitVersion(v) == Parts(0, v, "")
  {
    TrimmedIsFixed(v);
  }

  /** A version without an epoch and a revision is ordered by its text. */
  lemma SimpleOrder(v: string, w: string)
    requires Simple(v) && Simple(w)
    ensures VersionOrder(v, w) == Fragment(v, w)
  {
    hide SplitVersion, Fragment;
    SimpleParts(v);
    SimpleParts(w);
    FragmentOfNothing();
  }

  /** A release candidate is before its release, and a letter or a dot after it is
  after it. */
  lemma TildeVersionIsEarlier(v: string, s: string)
    requires Simple(v) && Simple(v + ("~" + s))
    ensures VersionOrder(v + ("~" + s), v) < 0
  {
    hide Simple;
    SimpleOrder(v + ("~" + s), v);
    TildeIsBeforeEnd(v, s);
  }

  lemma LongerVersionIsLater(v: string, c: char, s: string)
    requires Simple(v) && Simple(v + ([c] + s)) && IsMark(c) && c != '~'
    ensures VersionOrder(v, v + ([c] + s)) < 0
  {
    hide Simple;
    SimpleOrder(v, v + ([c] + s));
    EndIsBeforeMark(v, c, s);
  }

  /** Of two full versions, the epochs decide first, then the upstream parts, then
  the revisions. */
  lemma PartsDecide(e: int, u: string, r: string, f: int, w: string, q: string)
    requires MinInt <= e <= MaxInt && MinInt <= f <= MaxInt
    requires '-' !in r && TrailingSpace(r) == 0 && '-' !in q && TrailingSpace(q) == 0
    ensures var order := VersionOrder(Itoa(e) + ":" + (u + "-" + r), Itoa(f) + ":" + (w + "-" + q));
      && (e < f ==> order < 0)
      && (e > f ==> order > 0)
      && (e == f && Fragment(u, w) != 0 ==> order == Fragment(u, w))
      && (e == f && Fragment(u, w) == 0 ==> order == Fragment(r, q))
  {
    hide SplitVersion, Fragment, Itoa;
    SplitReadsBack(e, u, r);
    SplitReadsBack(f, w, q);
  }

  lemma ZeroEpochIsTrimmed(v: string)
    requires Trimmed(v)
    ensures Trimmed("0:" + v)
  {
    var w := "0:" + v;
    assert w[0] == '0' && w[1] == ':';
    assert forall k :: 0 <= k < |v| ==> w[k + 2] == v[k];
  }

  /** A missing epoch is the epoch 0, and so is one that is not a 64-bit number, which
  stays part of the version. */
  lemma MissingEpochIsZero(v: string)
    requires Trimmed(v) && ':' !in v
    ensures SplitVersion(v).epoch == 0 && SplitVersion("0:" + v) == SplitVersion(v)
    ensures VersionOrder(v, "0:" + v) == 0
  {
    hide Fragment, Atoi, TrimSpace, Trimmed;
    TrimmedIsFixed(v);
    ZeroEpochIsTrimmed(v);
    TrimmedIsFixed("0:" + v);
    IndexOfAt("0", ':', v);
    assert "0" + [':'] + v == "0:" + v && ("0:" + v)[..1] == "0" && ("0:" + v)[2..] == v;
    ParseItoa(0);
    assert Itoa(0) == "0";
    var p := SplitVersion(v);
    FragmentAntisymmetric(p.upstream, p.upstream);
    FragmentAntisymmetric(p.revision, p.revision);
  }

  lemma UnreadableEpochIsZero(e: string, rest: string)
    requires Trimmed(e + ":" + rest) && ':' !in e && Atoi(e).None? && '-' !in e + rest
    ensures SplitVersion(e + ":" + rest) == Parts(0, e + ":" + rest, "")
  {
    hide Atoi, TrimSpace, Trimmed;
    var v := e + ":" + rest;
    TrimmedIsFixed(v);
    IndexOfAt(e, ':', rest);
    assert v == e + [':'] + rest && v[..|e|] == e;
  }

  /** Spaces around a version are not part of it. */
  lemma SpacesAreIgnored(v: string, i: nat, k: nat)
    ensures SplitVersion(Repeat(' ', i) + v + Repeat(' ', k)) == SplitVersion(v)
  {
    hide TrimSpace;
    TrimSpacePadded(Repeat(' ', i) + v, k);
    TrimSpaceIndented(v, i);
  }
}
