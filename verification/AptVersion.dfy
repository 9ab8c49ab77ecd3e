/** Debian version order: the two-cursor comparison of internal/apt/version.go,
and the order on integer keys that it decides. The standard is section 5.6.12
of the Debian Policy Manual. */
module AptVersion {
  import opened GoText

  // ----- the reference order -----

  /** The sort weight of a character. */
  function Order(c: char): int {
    if IsDigit(c) then 0
    else if 'a' <= c <= 'z' || 'A' <= c <= 'Z' then c as int
    else if c == '~' then -1
    else if c == '\0' then 0
    else c as int + 256
  }

  /** The weight at the head of a suffix; the end of the string weighs 0. */
  function Weight(s: string): int {
    if s == "" then 0 else Order(s[0])
  }

  function Tail<T>(s: seq<T>): seq<T> {
    if s == [] then [] else s[1..]
  }

  predicate NonDigitHead(s: string) {
    s != "" && !IsDigit(s[0])
  }

  /** The length of the digit run at the head of s. */
  function RunLength(s: string): (n: nat)
    ensures n <= |s| && AllDigits(s[..n])
    ensures n < |s| ==> !IsDigit(s[n])
    ensures n == 0 <==> s == "" || !IsDigit(s[0])
  {
    if s == "" || !IsDigit(s[0]) then 0
    else
      var n := RunLength(s[1..]);
      assert forall i :: 0 < i <= n ==> s[i] == s[1..][..n][i - 1];
      1 + n
  }

  function StripZeros(s: string): (r: string)
    ensures |r| <= |s| && r == s[|s| - |r|..]
    ensures r == "" || r[0] != '0'
    ensures AllDigits(s) ==> AllDigits(r)
  {
    if s != "" && s[0] == '0' then StripZeros(s[1..]) else s
  }

  /** The first non-zero difference of two digit runs of equal length, or 0. */
  function FirstDiff(x: string, y: string): int
    requires |x| == |y|
  {
    if x == "" then 0
    else
      var d := FirstDiff(x[..|x| - 1], y[..|y| - 1]);
      if d != 0 then d else x[|x| - 1] as int - y[|y| - 1] as int
  }

  /** Two digit runs, without their leading zeros: the longer is the larger. */
  function CompareRuns(x: string, y: string): int {
    var p, q := StripZeros(x), StripZeros(y);
    if |p| > |q| then 1 else if |p| < |q| then -1 else FirstDiff(p, q)
  }

  /** The value compareFragment returns, for every pair of strings. */
  function Fragment(a: string, b: string): int
    decreases |a| + |b|
  {
    if a == "" && b == "" then 0
    else if NonDigitHead(a) || NonDigitHead(b) then
      if Weight(a) != Weight(b) then Weight(a) - Weight(b) else Fragment(Tail(a), Tail(b))
    else
      var m, n := RunLength(a), RunLength(b);
      var c := CompareRuns(a[..m], b[..n]);
      if c != 0 then c else Fragment(a[m..], b[n..])
  }

  // ----- keys -----

  /** The integer key of a fragment: a weight for each non-digit, then for each
  digit run a 0 (the end of the non-digits before it) and its value. */
  function Key(s: string): seq<int>
    decreases |s|
  {
    if s == "" then []
    else if NonDigitHead(s) then [Order(s[0])] + Key(s[1..])
    else [0, Value(s[..RunLength(s)])] + Key(s[RunLength(s)..])
  }

  /** The i-th entry of a key, padded with zeros. */
  function At(x: seq<int>, i: nat): int {
    if i < |x| then x[i] else 0
  }

  /** x is before y in the lexicographic order on zero-padded keys. */
  ghost predicate KeyLess(x: seq<int>, y: seq<int>) {
    exists k: nat :: AgreeBelow(x, y, k) && At(x, k) < At(y, k)
  }

  ghost predicate AgreeBelow(x: seq<int>, y: seq<int>, k: nat) {
    forall i: nat :: i < k ==> At(x, i) == At(y, i)
  }

  ghost predicate KeyEqual(x: seq<int>, y: seq<int>) {
    forall i: nat :: At(x, i) == At(y, i)
  }

  ghost predicate NulFree(s: string) {
    '\0' !in s
  }

  function Sign(n: int): int {
    if n < 0 then -1 else if n > 0 then 1 else 0
  }

  /** Lexicographic comparison of zero-padded keys, as a computation. */
  function KeyCompare(x: seq<int>, y: seq<int>): int
    decreases |x| + |y|
  {
    if x == [] && y == [] then 0
    else if At(x, 0) != At(y, 0) then Sign(At(x, 0) - At(y, 0))
    else KeyCompare(Tail(x), Tail(y))
  }

  lemma {:induction false} KeyCompareMeaning(x: seq<int>, y: seq<int>)
    ensures KeyCompare(x, y) < 0 <==> KeyLess(x, y)
    ensures KeyCompare(x, y) > 0 <==> KeyLess(y, x)
    ensures KeyCompare(x, y) == 0 <==> KeyEqual(x, y)
    decreases |x| + |y|
  {
    hide KeyLess;
    var p, q := Tail(x), Tail(y);
    assert forall i: nat :: At(x, i + 1) == At(p, i) && At(y, i + 1) == At(q, i);
    if x == [] && y == [] {
      EqualIsNotLess(x, y);
      EqualIsNotLess(y, x);
    } else if At(x, 0) < At(y, 0) {
      LessAtHead(x, y);
    } else if At(x, 0) > At(y, 0) {
      LessAtHead(y, x);
    } else {
      KeyCompareMeaning(p, q);
      KeyLessShift(x, y);
      KeyLessShift(y, x);
      assert KeyEqual(p, q) ==> KeyEqual(x, y) by {
        assert forall i: nat :: i > 0 ==> At(x, i) == At(p, i - 1) && At(y, i) == At(q, i - 1);
      }
      assert KeyEqual(x, y) ==> KeyEqual(p, q) by {
        if KeyEqual(x, y) {
          forall i: nat ensures At(p, i) == At(q, i) {
            assert At(x, i + 1) == At(y, i + 1);
          }
        }
      }
    }
  }

  lemma EqualIsNotLess(x: seq<int>, y: seq<int>)
    requires KeyEqual(x, y)
    ensures !KeyLess(x, y)
  {
  }

  lemma LessAtHead(x: seq<int>, y: seq<int>)
    requires At(x, 0) < At(y, 0)
    ensures KeyLess(x, y) && !KeyLess(y, x) && !KeyEqual(x, y)
  {
    assert AgreeBelow(x, y, 0);
  }

  lemma KeyLessShift(x: seq<int>, y: seq<int>)
    requires At(x, 0) == At(y, 0)
    ensures KeyLess(x, y) <==> KeyLess(Tail(x), Tail(y))
  {
    var p, q := Tail(x), Tail(y);
    assert forall i: nat :: i > 0 ==> At(x, i) == At(p, i - 1) && At(y, i) == At(q, i - 1);
    if KeyLess(x, y) {
      var k: nat :| AgreeBelow(x, y, k) && At(x, k) < At(y, k);
      assert AgreeBelow(p, q, k - 1) by {
        forall i: nat | i < k - 1 ensures At(p, i) == At(q, i) {
          assert At(x, i + 1) == At(y, i + 1);
        }
      }
    }
    if KeyLess(p, q) {
      var k: nat :| AgreeBelow(p, q, k) && At(p, k) < At(q, k);
      assert AgreeBelow(x, y, k + 1);
    }
  }

  // ----- digit runs compare as numbers -----

  lemma {:induction false} StripZerosValue(s: string)
    requires AllDigits(s)
    ensures Value(StripZeros(s)) == Value(s)
    decreases |s|
  {
    if s != "" && s[0] == '0' {
      assert s == "0" + s[1..];
      ValueLeadingZero(s[1..]);
      StripZerosValue(s[1..]);
    }
  }

  lemma {:induction false} LongerIsLarger(x: string, y: string)
    requires AllDigits(x) && AllDigits(y)
    requires |x| > |y| && x[0] != '0'
    ensures Value(x) > Value(y)
    decreases |x|
  {
    if |x| > 1 {
      LongerIsLarger(x[..|x| - 1], if y == "" then "" else y[..|y| - 1]);
    }
  }

  lemma {:induction false} FirstDiffIsNumeric(x: string, y: string)
    requires AllDigits(x) && AllDigits(y) && |x| == |y|
    ensures Sign(FirstDiff(x, y)) == Sign(Value(x) - Value(y))
    decreases |x|
  {
    if x != "" {
      FirstDiffIsNumeric(x[..|x| - 1], y[..|y| - 1]);
    }
  }

  /** Comparing length and then the first difference is numeric comparison. */
  lemma CompareRunsIsNumeric(x: string, y: string)
    requires AllDigits(x) && AllDigits(y)
    ensures Sign(CompareRuns(x, y)) == Sign(Value(x) - Value(y))
  {
    hide StripZeros, Value, FirstDiff, AllDigits;
    var p, q := StripZeros(x), StripZeros(y);
    StripZerosValue(x);
    StripZerosValue(y);
    if |p| > |q| {
      LongerIsLarger(p, q);
    } else if |p| < |q| {
      LongerIsLarger(q, p);
    } else {
      FirstDiffIsNumeric(p, q);
    }
  }

  // ----- the comparison decides the order on keys -----

  lemma KeyOfRun(s: string)
    requires !NonDigitHead(s)
    ensures At(Key(s), 0) == 0
    ensures At(Tail(Key(s)), 0) == Value(s[..RunLength(s)])
    ensures Tail(Tail(Key(s))) == Key(s[RunLength(s)..])
  {
    if s != "" {
      var n := RunLength(s);
      assert Tail(Key(s)) == [Value(s[..n])] + Key(s[n..]);
      assert Tail(Tail(Key(s))) == Key(s[n..]);
    }
  }

  lemma KeyHead(s: string)
    ensures At(Key(s), 0) == Weight(s)
    ensures NonDigitHead(s) ==> Tail(Key(s)) == Key(Tail(s))
  {
  }

  lemma NonDigitWeight(s: string)
    requires NulFree(s)
    ensures NonDigitHead(s) <==> Weight(s) != 0
  {
  }

  /** The first theorem: on strings without NUL the sign of the comparison is
  the lexicographic comparison of the zero-padded keys. */
  lemma {:induction false} FragmentComparesKeys(a: string, b: string)
    requires NulFree(a) && NulFree(b)
    ensures Sign(Fragment(a, b)) == KeyCompare(Key(a), Key(b))
    decreases |a| + |b|
  {
    var x, y := Key(a), Key(b);
    KeyHead(a);
    KeyHead(b);
    NonDigitWeight(a);
    NonDigitWeight(b);
    if a == "" && b == "" {
    } else if NonDigitHead(a) || NonDigitHead(b) {
      if Weight(a) == Weight(b) {
        FragmentComparesKeys(Tail(a), Tail(b));
      }
    } else {
      FragmentComparesKeys(a[RunLength(a)..], b[RunLength(b)..]);
      RunsCompareKeys(a, b);
    }
  }

  lemma RunsCompareKeys(a: string, b: string)
    requires !NonDigitHead(a) && !NonDigitHead(b) && (a != "" || b != "")
    requires Sign(Fragment(a[RunLength(a)..], b[RunLength(b)..]))
      == KeyCompare(Key(a[RunLength(a)..]), Key(b[RunLength(b)..]))
    ensures Sign(Fragment(a, b)) == KeyCompare(Key(a), Key(b))
  {
    hide Fragment, CompareRuns, RunLength, Key, KeyCompare, Value;
    var m, n := RunLength(a), RunLength(b);
    FragmentAtRuns(a, b);
    KeyOfRun(a);
    KeyOfRun(b);
    CompareRunsIsNumeric(a[..m], b[..n]);
    KeyCompareTwo(Key(a), Key(b));
  }

  lemma FragmentAtRuns(a: string, b: string)
    requires !NonDigitHead(a) && !NonDigitHead(b)
    ensures Fragment(a, b) ==
      var c := CompareRuns(a[..RunLength(a)], b[..RunLength(b)]);
      if c != 0 then c else Fragment(a[RunLength(a)..], b[RunLength(b)..])
  {
  }

  lemma KeyCompareTwo(x: seq<int>, y: seq<int>)
    requires At(x, 0) == At(y, 0)
    ensures KeyCompare(x, y) ==
      var p, q := Tail(x), Tail(y);
      if At(p, 0) != At(q, 0) then Sign(At(p, 0) - At(q, 0)) else KeyCompare(Tail(p), Tail(q))
  {
  }

  lemma {:induction false} FirstDiffAntisymmetric(x: string, y: string)
    requires |x| == |y|
    ensures FirstDiff(x, y) == -FirstDiff(y, x)
    decreases |x|
  {
    if x != "" {
      FirstDiffAntisymmetric(x[..|x| - 1], y[..|y| - 1]);
    }
  }

  /** Exchanging the arguments negates the value, exactly and for every input. */
  lemma {:induction false} FragmentAntisymmetric(a: string, b: string)
    ensures Fragment(a, b) == -Fragment(b, a)
    decreases |a| + |b|
  {
    hide RunLength, StripZeros;
    if a == "" && b == "" {
    } else if NonDigitHead(a) || NonDigitHead(b) {
      if Weight(a) == Weight(b) {
        FragmentAntisymmetric(Tail(a), Tail(b));
      }
    } else {
      var m, n := RunLength(a), RunLength(b);
      var p, q := StripZeros(a[..m]), StripZeros(b[..n]);
      if |p| == |q| {
        FirstDiffAntisymmetric(p, q);
      }
      FragmentAntisymmetric(a[m..], b[n..]);
    }
  }

  lemma KeyCompareTransitive(x: seq<int>, y: seq<int>, z: seq<int>)
    requires KeyCompare(x, y) <= 0 && KeyCompare(y, z) <= 0
    ensures KeyCompare(x, z) <= 0
    ensures KeyCompare(x, z) == 0 ==> KeyCompare(x, y) == 0 && KeyCompare(y, z) == 0
    decreases |x| + |y| + |z|
  {
    if x == [] && y == [] && z == [] {
    } else if At(x, 0) == At(y, 0) == At(z, 0) {
      KeyCompareTransitive(Tail(x), Tail(y), Tail(z));
    }
  }

  lemma FragmentTransitive(a: string, b: string, c: string)
    requires NulFree(a) && NulFree(b) && NulFree(c)
    requires Fragment(a, b) <= 0 && Fragment(b, c) <= 0
    ensures Fragment(a, c) <= 0
    ensures Fragment(a, c) == 0 ==> Fragment(a, b) == 0 && Fragment(b, c) == 0
  {
    FragmentComparesKeys(a, b);
    FragmentComparesKeys(b, c);
    FragmentComparesKeys(a, c);
    KeyCompareTransitive(Key(a), Key(b), Key(c));
  }

  // ----- the condition is exact: when NUL breaks transitivity -----

  ghost predicate Over(alphabet: set<char>, s: string) {
    forall c :: c in s ==> c in alphabet
  }

  ghost predicate TransitiveOver(alphabet: set<char>) {
    forall a, b, c | Over(alphabet, a) && Over(alphabet, b) && Over(alphabet, c) ::
      Fragment(a, b) <= 0 && Fragment(b, c) <= 0 ==> Fragment(a, c) <= 0
  }

  ghost predicate Digitless(s: string) {
    forall i :: 0 <= i < |s| ==> !IsDigit(s[i])
  }

  /** Without digits, NUL is only another weight 0. */
  lemma {:induction false} DigitlessTransitive(a: string, b: string, c: string)
    requires Digitless(a) && Digitless(b) && Digitless(c)
    requires Fragment(a, b) <= 0 && Fragment(b, c) <= 0
    ensures Fragment(a, c) <= 0
    decreases |a| + |b| + |c|
  {
    if a + b + c != "" && Weight(a) == Weight(b) == Weight(c) {
      DigitlessTransitive(Tail(a), Tail(b), Tail(c));
    }
  }

  lemma DigitlessOver(alphabet: set<char>, s: string)
    requires Over(alphabet, s) && forall c :: c in alphabet ==> !IsDigit(c)
    ensures Digitless(s)
  {
    assert forall i :: 0 <= i < |s| ==> s[i] in s;
  }

  ghost predicate OnlyNulAndZero(s: string) {
    forall i :: 0 <= i < |s| ==> s[i] in {'\0', '0'}
  }

  lemma {:induction false} StripZerosOfZeros(s: string)
    requires OnlyNulAndZero(s) && AllDigits(s)
    ensures StripZeros(s) == ""
    decreases |s|
  {
    if s != "" {
      assert s[0] == '0';
      StripZerosOfZeros(s[1..]);
    }
  }

  /** Strings of NUL and zeros are all equal. */
  lemma {:induction false} NulAndZerosAreEqual(a: string, b: string)
    requires OnlyNulAndZero(a) && OnlyNulAndZero(b)
    ensures Fragment(a, b) == 0
    decreases |a| + |b|
  {
    hide Fragment, RunLength, StripZeros;
    if a == "" && b == "" {
      FragmentOfNothing();
    } else if NonDigitHead(a) || NonDigitHead(b) {
      FragmentAtNonDigit(a, b);
      NulAndZerosAreEqual(Tail(a), Tail(b));
    } else {
      var m, n := RunLength(a), RunLength(b);
      FragmentAtRuns(a, b);
      FirstDiffNothing("", "");
      StripZerosOfZeros(a[..m]);
      StripZerosOfZeros(b[..n]);
      NulAndZerosAreEqual(a[m..], b[n..]);
    }
  }

  lemma FragmentOfNothing()
    ensures Fragment("", "") == 0
  {
  }

  lemma NulEqualsEveryDigit(d: char)
    requires IsDigit(d)
    ensures Fragment([d], "\0") == 0 && Fragment("\0", [d]) == 0 && Fragment("\0", "") == 0
  {
    assert Tail([d]) == "" && Tail("\0") == "";
  }

  /** A positive digit is above nothing, though NUL equals both. */
  lemma DigitIsPositive(d: char)
    requires IsDigit(d) && d != '0'
    ensures Fragment([d], "") == 1
  {
    assert RunLength([d]) == 1 && [d][..1] == [d];
    FragmentAtRuns([d], "");
  }

  lemma FragmentAtNonDigit(a: string, b: string)
    requires NonDigitHead(a) || NonDigitHead(b)
    ensures Fragment(a, b) ==
      if Weight(a) != Weight(b) then Weight(a) - Weight(b) else Fragment(Tail(a), Tail(b))
  {
  }

  /** NUL and one zero each stand before x as one zero does, yet NUL takes one
  position where two zeros take none. */
  lemma NulIsNotTwoZeros(x: char)
    requires !IsDigit(x) && x != '\0'
    ensures Fragment(['\0', x], ['0', x]) == 0 && Fragment(['0', x], ['\0', x]) == 0
    ensures Fragment(['0', x], ['0', '0', x]) == 0 && Fragment(['0', '0', x], ['0', x]) == 0
    ensures Fragment(['\0', x], ['0', '0', x]) == Order(x) && Fragment(['0', '0', x], ['\0', x]) == -Order(x)
  {
    hide Fragment, RunLength, StripZeros;
    var n, z, zz := ['\0', x], ['0', x], ['0', '0', x];
    assert Tail(n) == [x] && Tail(z) == [x] && Tail(zz) == z && Tail([x]) == "";
    SameTwice([x]);
    FragmentAtNonDigit(n, z);
    FragmentAtNonDigit(n, zz);
    FragmentAtNonDigit([x], z);
    ZerosThen(x, z, zz);
    FragmentAntisymmetric(n, z);
    FragmentAntisymmetric(n, zz);
    FragmentAntisymmetric(z, zz);
  }

  lemma SameTwice(s: string)
    ensures Fragment(s, s) == 0
  {
    hide Fragment;
    FragmentAntisymmetric(s, s);
  }

  lemma ZerosThen(x: char, z: string, zz: string)
    requires !IsDigit(x) && z == ['0', x] && zz == ['0', '0', x]
    ensures Fragment(z, zz) == 0
  {
    hide Fragment, StripZeros;
    assert z[1..] == [x] && zz[2..] == [x] && zz[1..] == z && z[..1] == "0" && zz[..2] == "00";
    assert RunLength([x]) == 0 && RunLength(z) == 1 && RunLength(zz) == 2;
    StripZerosOfZeros("0");
    StripZerosOfZeros("00");
    SameTwice([x]);
    FragmentAtRuns(z, zz);
  }

  /** NUL does no harm where there are no digits, or nothing but zeros beside it. */
  predicate NulIsHarmless(alphabet: set<char>) {
    || '\0' !in alphabet
    || (forall c :: c in alphabet ==> !IsDigit(c))
    || alphabet <= {'\0', '0'}
  }

  lemma TransitiveWhenHarmless(alphabet: set<char>)
    requires NulIsHarmless(alphabet)
    ensures TransitiveOver(alphabet)
  {
    hide Fragment;
    forall a, b, c | Over(alphabet, a) && Over(alphabet, b) && Over(alphabet, c) && Fragment(a, b) <= 0 && Fragment(b, c) <= 0
      ensures Fragment(a, c) <= 0
    {
      if '\0' !in alphabet {
        FragmentTransitive(a, b, c);
      } else if forall x :: x in alphabet ==> !IsDigit(x) {
        DigitlessOver(alphabet, a);
        DigitlessOver(alphabet, b);
        DigitlessOver(alphabet, c);
        DigitlessTransitive(a, b, c);
      } else {
        assert forall i :: 0 <= i < |a| ==> a[i] in alphabet;
        assert forall i :: 0 <= i < |c| ==> c[i] in alphabet;
        NulAndZerosAreEqual(a, c);
      }
    }
  }

  lemma NotTransitiveOtherwise(alphabet: set<char>)
    requires !NulIsHarmless(alphabet)
    ensures !TransitiveOver(alphabet)
  {
    hide Fragment;
    assert Over(alphabet, "\0") && Over(alphabet, "");
    if d :| d in alphabet && IsDigit(d) && d != '0' {
      NulEqualsEveryDigit(d);
      DigitIsPositive(d);
      assert Over(alphabet, [d]);
    } else {
      var x :| x in alphabet && x !in {'\0', '0'};
      var n, z, zz := ['\0', x], ['0', x], ['0', '0', x];
      assert Over(alphabet, n) && Over(alphabet, z) && Over(alphabet, zz);
      NulIsNotTwoZeros(x);
      assert Order(x) != 0;
    }
  }

  /** Over every alphabet, the comparison is transitive exactly when NUL is not in
  it, or no digit is, or nothing is but NUL and 0. */
  lemma TransitiveExactly(alphabet: set<char>)
    ensures TransitiveOver(alphabet) <==> NulIsHarmless(alphabet)
  {
    if NulIsHarmless(alphabet) {
      TransitiveWhenHarmless(alphabet);
    } else {
      NotTransitiveOtherwise(alphabet);
    }
  }

  // ----- the two-cursor loop -----

  /** What is left of s at cursor i, which may have run past the end. */
  function From(s: string, i: nat): string {
    if i <= |s| then s[i..] else ""
  }

  /** The digit run of s at cursor i. */
  function Run(s: string, i: nat): (r: string)
    ensures AllDigits(r)
  {
    From(s, i)[..RunLength(From(s, i))]
  }

  /** Inside its run a cursor stands on a digit, and at its end on none. */
  lemma RunAt(s: string, i0: nat, i: nat)
    requires i0 <= i <= i0 + |Run(s, i0)|
    ensures i < i0 + |Run(s, i0)| ==> i < |s| && IsDigit(s[i]) && s[i] == Run(s, i0)[i - i0]
    ensures i == i0 + |Run(s, i0)| ==> i >= |s| || !IsDigit(s[i])
  {
    var t := From(s, i0);
    if i < i0 + |Run(s, i0)| {
      assert Run(s, i0)[i - i0] == t[i - i0];
    }
  }

  lemma {:induction false} StripZerosAt(r: string, k: nat)
    requires k <= |r|
    requires forall t :: 0 <= t < k ==> r[t] == '0'
    requires k == |r| || r[k] != '0'
    ensures StripZeros(r) == r[k..]
  {
    if k > 0 {
      StripZerosAt(r[1..], k - 1);
      assert r[1..][k - 1..] == r[k..];
    }
  }

  method SkipZeros(s: string, i0: nat) returns (i: nat)
    requires !NonDigitHead(From(s, i0))
    ensures i0 <= i <= i0 + |Run(s, i0)|
    ensures StripZeros(Run(s, i0)) == Run(s, i0)[i - i0..]
  {
    ghost var r := Run(s, i0);
    i := i0;
    while i < |s| && s[i] == '0'
      invariant i0 <= i <= i0 + |r|
      invariant forall t :: 0 <= t < i - i0 ==> r[t] == '0'
    {
      RunAt(s, i0, i);
      i := i + 1;
    }
    RunAt(s, i0, i);
    StripZerosAt(r, i - i0);
  }

  /** The digit part of one round: the zeros, the common digits, then the longer
  run or the first difference decides. */
  method CompareRunsAt(a: string, i0: nat, b: string, j0: nat) returns (c: int, i: nat, j: nat)
    requires !NonDigitHead(From(a, i0)) && !NonDigitHead(From(b, j0))
    ensures c == CompareRuns(Run(a, i0), Run(b, j0))
    ensures c == 0 ==> i == i0 + |Run(a, i0)| && j == j0 + |Run(b, j0)|
  {
    hide Run, RunLength, StripZeros, FirstDiff;
    ghost var ra, rb := Run(a, i0), Run(b, j0);
    i := SkipZeros(a, i0);
    j := SkipZeros(b, j0);
    ghost var p, q := ra[i - i0..], rb[j - j0..];
    ghost var i2, j2, k := i, j, 0;
    var firstDiff := 0;
    FirstDiffNothing(p[..0], q[..0]);
    while i < |a| && IsDigit(a[i]) && j < |b| && IsDigit(b[j])
      invariant i == i2 + k && j == j2 + k
      invariant 0 <= k <= |p| && k <= |q|
      invariant firstDiff == FirstDiff(p[..k], q[..k])
    {
      RunAt(a, i0, i);
      RunAt(b, j0, j);
      assert p[k] == a[i] && q[k] == b[j];
      FirstDiffStep(p, q, k);
      if firstDiff == 0 {
        firstDiff := a[i] as int - b[j] as int;
      }
      i, j, k := i + 1, j + 1, k + 1;
    }
    RunAt(a, i0, i);
    RunAt(b, j0, j);
    if i < |a| && IsDigit(a[i]) {
      return 1, i, j;
    }
    if j < |b| && IsDigit(b[j]) {
      return -1, i, j;
    }
    assert p[..k] == p && q[..k] == q;
    return firstDiff, i, j;
  }

  lemma FirstDiffNothing(p: string, q: string)
    requires p == "" && q == ""
    ensures FirstDiff(p, q) == 0
  {
  }

  lemma FirstDiffStep(p: string, q: string, k: nat)
    requires k < |p| && k < |q|
    ensures FirstDiff(p[..k + 1], q[..k + 1]) ==
      if FirstDiff(p[..k], q[..k]) != 0 then FirstDiff(p[..k], q[..k]) else p[k] as int - q[k] as int
  {
    assert p[..k + 1][..k] == p[..k] && q[..k + 1][..k] == q[..k];
  }

  /** One step of the non-digit loop, in terms of the cursors. */
  lemma NonDigitStep(a: string, i: nat, b: string, j: nat)
    requires (i < |a| && !IsDigit(a[i])) || (j < |b| && !IsDigit(b[j]))
    ensures Fragment(From(a, i), From(b, j)) ==
      if WeightAt(a, i) != WeightAt(b, j) then WeightAt(a, i) - WeightAt(b, j)
      else Fragment(From(a, i + 1), From(b, j + 1))
  {
    assert Tail(From(a, i)) == From(a, i + 1) && Tail(From(b, j)) == From(b, j + 1);
  }

  /** One round of the digit loops, in terms of the cursors. */
  lemma RunsStep(a: string, i: nat, b: string, j: nat, i': nat, j': nat)
    requires !NonDigitHead(From(a, i)) && !NonDigitHead(From(b, j))
    requires i' == i + |Run(a, i)| && j' == j + |Run(b, j)|
    ensures CompareRuns(Run(a, i), Run(b, j)) == 0 ==>
      Fragment(From(a, i), From(b, j)) == Fragment(From(a, i'), From(b, j'))
    ensures CompareRuns(Run(a, i), Run(b, j)) != 0 ==>
      Fragment(From(a, i), From(b, j)) == CompareRuns(Run(a, i), Run(b, j))
    ensures i < |a| ==> i' > i
    ensures j < |b| ==> j' > j
  {
    hide Fragment, CompareRuns;
    FragmentAtRuns(From(a, i), From(b, j));
    assert From(a, i') == From(a, i)[|Run(a, i)|..];
    assert From(b, j') == From(b, j)[|Run(b, j)|..];
  }

  /** How many bytes of s are left at cursor i. */
  function Left(s: string, i: nat): nat {
    if i < |s| then |s| - i else 0
  }

  function WeightAt(s: string, i: nat): int {
    if i < |s| then Order(s[i]) else 0
  }

  /** The two strings from the cursors on compare like the whole strings. */
  ghost predicate Undecided(a: string, i: nat, b: string, j: nat, total: int) {
    Fragment(From(a, i), From(b, j)) == total
  }

  lemma UndecidedAtNonDigit(a: string, i: nat, b: string, j: nat, total: int)
    requires Undecided(a, i, b, j, total)
    requires (i < |a| && !IsDigit(a[i])) || (j < |b| && !IsDigit(b[j]))
    ensures WeightAt(a, i) != WeightAt(b, j) ==> total == WeightAt(a, i) - WeightAt(b, j)
    ensures WeightAt(a, i) == WeightAt(b, j) ==> Undecided(a, i + 1, b, j + 1, total)
  {
    NonDigitStep(a, i, b, j);
  }

  method DigitRound(a: string, i0: nat, b: string, j0: nat, ghost total: int)
    returns (c: int, i: nat, j: nat)
    requires Undecided(a, i0, b, j0, total)
    requires !(i0 < |a| && !IsDigit(a[i0])) && !(j0 < |b| && !IsDigit(b[j0]))
    ensures c != 0 ==> c == total
    ensures c == 0 ==> Undecided(a, i, b, j, total)
    ensures c == 0 ==> i >= i0 && j >= j0 && (i0 < |a| ==> i > i0) && (j0 < |b| ==> j > j0)
  {
    hide Fragment, CompareRuns, RunLength, Run;
    c, i, j := CompareRunsAt(a, i0, b, j0);
    RunsStep(a, i0, b, j0, i0 + |Run(a, i0)|, j0 + |Run(b, j0)|);
  }

  /** The nested loops compute the reference value, so they inherit its laws. */
  method CompareFragment(a: string, b: string) returns (r: int)
    ensures r == Fragment(a, b)
    ensures NulFree(a) && NulFree(b) ==> Sign(r) == KeyCompare(Key(a), Key(b))
  {
    ghost var total := Fragment(a, b);
    r := CompareLoop(a, b, total);
    if NulFree(a) && NulFree(b) {
      FragmentComparesKeys(a, b);
    }
  }

  lemma UndecidedAtEnd(a: string, i: nat, b: string, j: nat, total: int)
    requires Undecided(a, i, b, j, total) && i >= |a| && j >= |b|
    ensures total == 0
  {
  }

  method CompareLoop(a: string, b: string, ghost total: int) returns (r: int)
    requires Undecided(a, 0, b, 0, total)
    ensures r == total
  {
    hide Undecided;
    var i: nat, j: nat := 0, 0;
    while i < |a| || j < |b|
      invariant Undecided(a, i, b, j, total)
      decreases Left(a, i) + Left(b, j)
    {
      ghost var i0, j0 := i, j;
      while (i < |a| && !IsDigit(a[i])) || (j < |b| && !IsDigit(b[j]))
        invariant i0 <= i && j0 <= j
        invariant Undecided(a, i, b, j, total)
        decreases Left(a, i) + Left(b, j)
      {
        UndecidedAtNonDigit(a, i, b, j, total);
        var ac, bc := WeightAt(a, i), WeightAt(b, j);
        if ac != bc {
          return ac - bc;
        }
        i, j := i + 1, j + 1;
      }
      var c;
      c, i, j := DigitRound(a, i, b, j, total);
      if c != 0 {
        return c;
      }
    }
    UndecidedAtEnd(a, i, b, j, total);
    return 0;
  }
  // ----- whole versions -----

  datatype Parts = Parts(epoch: int, upstream: string, revision: string)

  /** The epoch and what follows it. A prefix before the first colon that is not
  a 64-bit integer is not an epoch and stays. */
  function SplitEpoch(v: string): (int, string) {
    var i := IndexOf(v, ':');
    if i < |v| && Atoi(v[..i]).Some? then (Atoi(v[..i]).value, v[i + 1..]) else (0, v)
  }

  /** [epoch:]upstream[-revision], where the revision follows the last hyphen. */
  function SplitVersion(version: string): Parts {
    var (epoch, rest) := SplitEpoch(TrimSpace(version));
    match LastIndexOf(rest, '-')
    case Some(k) => Parts(epoch, rest[..k], rest[k + 1..])
    case None => Parts(epoch, rest, "")
  }

  /** The value CompareVersions returns. */
  function VersionOrder(a: string, b: string): int {
    var p, q := SplitVersion(a), SplitVersion(b);
    if p.epoch != q.epoch then (if p.epoch < q.epoch then -1 else 1)
    else
      var c := Fragment(p.upstream, q.upstream);
      if c != 0 then c else Fragment(p.revision, q.revision)
  }

  method CompareVersions(a: string, b: string) returns (r: int)
    ensures r == VersionOrder(a, b)
  {
    var p, q := SplitVersion(a), SplitVersion(b);
    if p.epoch != q.epoch {
      return if p.epoch < q.epoch then -1 else 1;
    }
    var c := CompareFragment(p.upstream, q.upstream);
    if c != 0 {
      return c;
    }
    r := CompareFragment(p.revision, q.revision);
  }

  lemma VersionAntisymmetric(a: string, b: string)
    ensures VersionOrder(a, b) == -VersionOrder(b, a)
  {
    var p, q := SplitVersion(a), SplitVersion(b);
    FragmentAntisymmetric(p.upstream, q.upstream);
    FragmentAntisymmetric(p.revision, q.revision);
  }

  lemma PartsNulFree(v: string)
    requires NulFree(v)
    ensures NulFree(SplitVersion(v).upstream) && NulFree(SplitVersion(v).revision)
  {
    hide LastIndexOf, TrimLeft, TrimRight, Atoi, IndexOf;
    TrimLeftIsSuffix(v);
    TrimRightIsPrefix(TrimLeft(v));
    assert NulFree(TrimSpace(v));
  }

  lemma FragmentEqualIsKeyEqual(a: string, b: string)
    requires NulFree(a) && NulFree(b)
    ensures Fragment(a, b) == 0 <==> KeyEqual(Key(a), Key(b))
    ensures Fragment(a, b) < 0 <==> KeyLess(Key(a), Key(b))
  {
    FragmentComparesKeys(a, b);
    KeyCompareMeaning(Key(a), Key(b));
  }

  /** Versions compare equal exactly when their epochs and both keys agree. */
  lemma VersionEqualMeans(a: string, b: string)
    requires NulFree(a) && NulFree(b)
    ensures VersionOrder(a, b) == 0 <==>
      var p, q := SplitVersion(a), SplitVersion(b);
      && p.epoch == q.epoch
      && KeyEqual(Key(p.upstream), Key(q.upstream))
      && KeyEqual(Key(p.revision), Key(q.revision))
  {
    PartsNulFree(a);
    PartsNulFree(b);
    FragmentEqualIsKeyEqual(SplitVersion(a).upstream, SplitVersion(b).upstream);
    FragmentEqualIsKeyEqual(SplitVersion(a).revision, SplitVersion(b).revision);
  }

  /** A version is before another exactly when the first of epoch, upstream key
  and revision key that differs is smaller. */
  lemma VersionLessMeans(a: string, b: string)
    requires NulFree(a) && NulFree(b)
    ensures VersionOrder(a, b) < 0 <==>
      var p, q := SplitVersion(a), SplitVersion(b);
      || p.epoch < q.epoch
      || (p.epoch == q.epoch && KeyLess(Key(p.upstream), Key(q.upstream)))
      || (p.epoch == q.epoch && KeyEqual(Key(p.upstream), Key(q.upstream))
          && KeyLess(Key(p.revision), Key(q.revision)))
  {
    PartsNulFree(a);
    PartsNulFree(b);
    FragmentEqualIsKeyEqual(SplitVersion(a).upstream, SplitVersion(b).upstream);
    FragmentEqualIsKeyEqual(SplitVersion(a).revision, SplitVersion(b).revision);
  }

  /** Versions without NUL are totally preordered; totality is antisymmetry. */
  lemma VersionTransitive(a: string, b: string, c: string)
    requires NulFree(a) && NulFree(b) && NulFree(c)
    requires VersionOrder(a, b) <= 0 && VersionOrder(b, c) <= 0
    ensures VersionOrder(a, c) <= 0
    ensures VersionOrder(a, c) == 0 ==> VersionOrder(a, b) == 0 && VersionOrder(b, c) == 0
  {
    PartsNulFree(a);
    PartsNulFree(b);
    PartsNulFree(c);
    var p, q, r := SplitVersion(a), SplitVersion(b), SplitVersion(c);
    if p.epoch == q.epoch == r.epoch {
      FragmentTransitive(p.upstream, q.upstream, r.upstream);
      if Fragment(p.upstream, r.upstream) == 0 {
        FragmentTransitive(p.revision, q.revision, r.revision);
      }
    }
  }

  lemma SplitAt(v: string, epoch: string, upstream: string, revision: string)
    requires Trimmed(v) && v == epoch + ":" + (upstream + "-" + revision)
    requires ':' !in epoch && Atoi(epoch).Some? && '-' !in revision
    ensures SplitVersion(v) == Parts(Atoi(epoch).value, upstream, revision)
  {
    hide LastIndexOf, IndexOf, Atoi;
    var rest := upstream + "-" + revision;
    TrimmedIsFixed(v);
    IndexOfAt(epoch, ':', rest);
    assert v[..|epoch|] == epoch && v[|epoch| + 1..] == rest;
    LastIndexOfAt(upstream, '-', revision);
    assert rest[..|upstream|] == upstream && rest[|upstream| + 1..] == revision;
  }

  lemma TrimmedAround(front: string, back: string)
    requires front != "" && (IsDigit(front[0]) || front[0] == '-')
    requires TrailingSpace(back) == 0
    ensures Trimmed(front + "-" + back)
  {
    var v := front + "-" + back;
    var n := |v|;
    assert v[0] == front[0];
    assert v[n - 1 - |back|] == '-';
    assert forall k :: n - |back| <= k < n ==> v[k] == back[k - (n - |back|)];
  }

  /** Splitting reads back every epoch:upstream-revision. */
  lemma SplitReadsBack(epoch: int, upstream: string, revision: string)
    requires MinInt <= epoch <= MaxInt
    requires '-' !in revision && TrailingSpace(revision) == 0
    ensures SplitVersion(Itoa(epoch) + ":" + (upstream + "-" + revision)) == Parts(epoch, upstream, revision)
  {
    var e := Itoa(epoch);
    var v := e + ":" + (upstream + "-" + revision);
    assert v == (e + ":" + upstream) + "-" + revision;
    TrimmedAround(e + ":" + upstream, revision);
    ParseItoa(epoch);
    SplitAt(v, e, upstream, revision);
  }

  lemma SplitEpochAppend(v: string, t: string)
    requires ':' !in t
    ensures SplitEpoch(v + t) == (SplitEpoch(v).0, SplitEpoch(v).1 + t)
  {
    var i := IndexOf(v, ':');
    if i < |v| {
      assert v == v[..i + 1] + v[i + 1..] && v[..i + 1] == v[..i] + [':'];
      assert v + t == v[..i] + [':'] + (v[i + 1..] + t);
      IndexOfAt(v[..i], ':', v[i + 1..] + t);
      assert (v + t)[..i] == v[..i] && (v + t)[i + 1..] == v[i + 1..] + t;
    } else {
      assert ':' !in v + t;
    }
  }

  lemma TrimmedWithZeroRevision(v: string)
    requires Trimmed(v)
    ensures Trimmed(v + "-0")
  {
    var w := v + "-0";
    assert v != "" ==> w[0] == v[0];
    assert |v| > 1 ==> w[1] == v[1];
    assert |v| > 2 ==> w[2] == v[2];
  }

  /** Appending "-0" to a version without a hyphen only sets the revision. */
  lemma SplitWithZeroRevision(v: string)
    requires Trimmed(v) && '-' !in v
    ensures SplitVersion(v).revision == ""
    ensures SplitVersion(v + "-0") == SplitVersion(v).(revision := "0")
  {
    TrimmedIsFixed(v);
    TrimmedWithZeroRevision(v);
    TrimmedIsFixed(v + "-0");
    SplitEpochAppend(v, "-0");
    var rest := SplitEpoch(v).1;
    assert '-' !in rest;
    assert rest + "-0" == rest + ['-'] + "0";
    LastIndexOfAt(rest, '-', "0");
    assert (rest + "-0")[..|rest|] == rest;
  }

  lemma EmptyEqualsZero()
    ensures Fragment("", "0") == 0
  {
    FragmentAtRuns("", "0");
    assert RunLength("0") == 1 && "0"[..1] == "0" && StripZeros("0") == "";
  }

  /** A missing revision compares equal to the revision "0". */
  lemma MissingRevisionIsZero(v: string)
    requires Trimmed(v) && '-' !in v
    ensures VersionOrder(v, v + "-0") == 0
  {
    hide SplitVersion, Fragment;
    SplitWithZeroRevision(v);
    var u := SplitVersion(v).upstream;
    FragmentAntisymmetric(u, u);
    EmptyEqualsZero();
  }
}
