/** The parts of Go's strings, strconv and bufio packages that the model needs.

A Go string is a sequence of bytes. Here it is a `string` in which each byte is
the char with that code, so a statement about every `string` covers every byte
string. */
module GoText {

  datatype Option<+T> = None | Some(value: T)

  datatype Result<+T, +E> = Ok(value: T) | Err(error: E)

  // ----- searching -----

  /** The position of the first c in s, or |s| when there is none. */
  function IndexOf(s: string, c: char): (i: nat)
    ensures i <= |s|
    ensures c !in s[..i]
    ensures i < |s| ==> s[i] == c
    ensures i == |s| ==> c !in s
  {
    if s == "" || s[0] == c then 0 else 1 + IndexOf(s[1..], c)
  }

  /** The position of the last c in s, when there is one. */
  function LastIndexOf(s: string, c: char): (r: Option<nat>)
    ensures r.None? <==> c !in s
    ensures r.Some? ==> r.value < |s| && s[r.value] == c && c !in s[r.value + 1..]
  {
    if s == "" then None
    else if s[|s| - 1] == c then Some(|s| - 1)
    else
      var r := LastIndexOf(s[..|s| - 1], c);
      assert r.Some? ==> s[r.value + 1..] == s[..|s| - 1][r.value + 1..] + [s[|s| - 1]];
      r
  }

  predicate HasSuffix(s: string, suffix: string) {
    |suffix| <= |s| && s[|s| - |suffix|..] == suffix
  }

  /** strings.TrimPrefix: s without the prefix, or s itself. */
  function TrimPrefix(s: string, prefix: string): string {
    if prefix <= s then s[|prefix|..] else s
  }

  /** IndexOf is settled by any split of s at a c. */
  lemma IndexOfAt(s: string, c: char, t: string)
    requires c !in s
    ensures IndexOf(s + [c] + t, c) == |s|
  {
    var w := s + [c] + t;
    var i := IndexOf(w, c);
    assert forall k :: 0 <= k < i ==> w[k] == w[..i][k];
    assert w[|s|] == c;
  }

  lemma {:induction false} LastIndexOfAt(s: string, c: char, t: string)
    requires c !in t
    ensures LastIndexOf(s + [c] + t, c) == Some(|s|)
    decreases |t|
  {
    var w := s + [c] + t;
    if t != "" {
      assert w[|w| - 1] == t[|t| - 1];
      assert w[..|w| - 1] == s + [c] + t[..|t| - 1];
      LastIndexOfAt(s, c, t[..|t| - 1]);
    }
  }

  /** The part of s before the first character of a set. */
  function Until(s: string, ends: set<char>): string {
    if s == "" || s[0] in ends then "" else [s[0]] + Until(s[1..], ends)
  }

  lemma {:induction false} UntilReads(name: string, rest: string, ends: set<char>)
    requires forall c :: c in name ==> c !in ends
    requires rest == "" || rest[0] in ends
    ensures Until(name + rest, ends) == name
    decreases |name|
  {
    if name == "" {
      assert name + rest == rest;
    } else {
      assert (name + rest)[1..] == name[1..] + rest;
      UntilReads(name[1..], rest, ends);
    }
  }

  // ----- white space -----

  predicate IsAsciiSpace(c: char) {
    9 <= c as int <= 13 || c == ' '
  }

  /** The two bytes encode U+0085 or U+00A0. */
  predicate IsSpace2(a: char, b: char) {
    a as int == 0xC2 && (b as int == 0x85 || b as int == 0xA0)
  }

  /** The three bytes encode U+1680, U+2000 to U+200A, U+2028, U+2029, U+202F, U+205F or U+3000. */
  predicate IsSpace3(a: char, b: char, c: char) {
    var x, y, z := a as int, b as int, c as int;
    || (x == 0xE1 && y == 0x9A && z == 0x80)
    || (x == 0xE2 && y == 0x80 && (0x80 <= z <= 0x8A || z == 0xA8 || z == 0xA9 || z == 0xAF))
    || (x == 0xE2 && y == 0x81 && z == 0x9F)
    || (x == 0xE3 && y == 0x80 && z == 0x80)
  }

  /** The length of the white-space rune that starts s, or 0. */
  function LeadingSpace(s: string): (n: nat)
    ensures n <= |s|
  {
    if |s| >= 1 && IsAsciiSpace(s[0]) then 1
    else if |s| >= 2 && IsSpace2(s[0], s[1]) then 2
    else if |s| >= 3 && IsSpace3(s[0], s[1], s[2]) then 3
    else 0
  }

  /** The length of the white-space rune that ends s, or 0. */
  function TrailingSpace(s: string): (n: nat)
    ensures n <= |s|
  {
    var k := |s|;
    if k >= 1 && IsAsciiSpace(s[k - 1]) then 1
    else if k >= 2 && IsSpace2(s[k - 2], s[k - 1]) then 2
    else if k >= 3 && IsSpace3(s[k - 3], s[k - 2], s[k - 1]) then 3
    else 0
  }

  /** The UTF-8 encoding of a code point of the basic plane. */
  function Utf8(c: nat): string
    requires c < 0xD800 || 0xE000 <= c < 0x10000
  {
    if c < 0x80 then [c as char]
    else if c < 0x800 then [(0xC0 + c / 64) as char, (0x80 + c % 64) as char]
    else [(0xE0 + c / 4096) as char, (0x80 + c / 64 % 64) as char, (0x80 + c % 64) as char]
  }

  /** The white space of Unicode. */
  predicate IsSpaceRune(c: nat) {
    || 9 <= c <= 13 || c == 32 || c == 0x85 || c == 0xA0 || c == 0x1680 || 0x2000 <= c <= 0x200A
    || c == 0x2028 || c == 0x2029 || c == 0x202F || c == 0x205F || c == 0x3000
  }

  /** The white space that is trimmed is the white space of Unicode. */
  lemma SpacesAreUnicode(c: nat, rest: string)
    requires c < 0xD800 || 0xE000 <= c < 0x10000
    ensures LeadingSpace(Utf8(c) + rest) == if IsSpaceRune(c) then |Utf8(c)| else 0
    ensures TrailingSpace(rest + Utf8(c)) == if IsSpaceRune(c) then |Utf8(c)| else 0
  {
    hide LeadingSpace, TrailingSpace, IsSpaceRune;
    if c < 0x80 {
      SpaceOfOne(c, rest);
    } else if c < 0x800 {
      SpaceOfTwo(c, rest);
    } else {
      SpaceOfThree(c, rest);
    }
  }

  lemma SpaceOfOne(c: nat, rest: string)
    requires c < 0x80
    ensures LeadingSpace([c as char] + rest) == if IsSpaceRune(c) then 1 else 0
    ensures TrailingSpace(rest + [c as char]) == if IsSpaceRune(c) then 1 else 0
  {
    var w := rest + [c as char];
    assert w[|w| - 1] == c as char;
  }

  lemma SpaceOfTwo(c: nat, rest: string)
    requires 0x80 <= c < 0x800
    ensures var u := [(0xC0 + c / 64) as char, (0x80 + c % 64) as char];
      && LeadingSpace(u + rest) == (if IsSpaceRune(c) then 2 else 0)
      && TrailingSpace(rest + u) == if IsSpaceRune(c) then 2 else 0
  {
    var x, y := (0xC0 + c / 64) as char, (0x80 + c % 64) as char;
    var v, w := [x, y] + rest, rest + [x, y];
    assert v[0] == x && v[1] == y && w[|w| - 2] == x && w[|w| - 1] == y;
    assert IsSpaceRune(c) <==> IsSpace2(x, y);
  }

  lemma SpaceOfThree(c: nat, rest: string)
    requires 0x800 <= c < 0x10000
    ensures var u := [(0xE0 + c / 4096) as char, (0x80 + c / 64 % 64) as char, (0x80 + c % 64) as char];
      && LeadingSpace(u + rest) == (if IsSpaceRune(c) then 3 else 0)
      && TrailingSpace(rest + u) == if IsSpaceRune(c) then 3 else 0
  {
    hide IsSpace3, IsSpaceRune;
    var x, y, z := (0xE0 + c / 4096) as char, (0x80 + c / 64 % 64) as char, (0x80 + c % 64) as char;
    var v, w := [x, y, z] + rest, rest + [x, y, z];
    assert v[0] == x && v[1] == y && v[2] == z;
    assert w[|w| - 3] == x && w[|w| - 2] == y && w[|w| - 1] == z;
    ThreeBytes(c);
  }

  lemma ThreeBytes(c: nat)
    requires 0x800 <= c < 0x10000
    ensures IsSpaceRune(c) <==> IsSpace3((0xE0 + c / 4096) as char, (0x80 + c / 64 % 64) as char, (0x80 + c % 64) as char)
  {
    var x, y, z := c / 4096, c / 64 % 64, c % 64;
    assert c == 4096 * x + 64 * y + z;
  }

  function TrimLeft(s: string): string
    decreases |s|
  {
    if LeadingSpace(s) > 0 then TrimLeft(s[LeadingSpace(s)..]) else s
  }

  function TrimRight(s: string): string
    decreases |s|
  {
    if TrailingSpace(s) > 0 then TrimRight(s[..|s| - TrailingSpace(s)]) else s
  }

  function TrimSpace(s: string): string {
    TrimRight(TrimLeft(s))
  }

  /** s has no white space at either end. */
  predicate Trimmed(s: string) {
    LeadingSpace(s) == 0 && TrailingSpace(s) == 0
  }

  lemma TrimmedIsFixed(s: string)
    requires Trimmed(s)
    ensures TrimSpace(s) == s
  {
    assert TrimLeft(s) == s;
  }

  lemma TrimmedHead(s: string)
    requires Trimmed(s) && s != ""
    ensures !IsAsciiSpace(s[0]) && !IsAsciiSpace(s[|s| - 1])
  {
  }

  lemma {:induction false} TrimLeftAppend(s: string, c: char)
    requires IsAsciiSpace(c)
    ensures TrimLeft(s + [c]) == TrimLeft(s) + [c] || (TrimLeft(s + [c]) == "" && TrimLeft(s) == "")
    decreases |s|
  {
    if s == "" {
      assert s + [c] == [c];
      assert [c][1..] == "";
    } else {
      var n := LeadingSpace(s);
      assert LeadingSpace(s + [c]) == n;
      if n > 0 {
        assert (s + [c])[n..] == s[n..] + [c];
        TrimLeftAppend(s[n..], c);
      }
    }
  }

  /** White space after s does not change what TrimSpace leaves. */
  lemma TrimSpaceAppend(s: string, c: char)
    requires IsAsciiSpace(c)
    ensures TrimSpace(s + [c]) == TrimSpace(s)
  {
    TrimLeftAppend(s, c);
    var t := TrimLeft(s);
    if TrimLeft(s + [c]) == t + [c] {
      assert (t + [c])[..|t|] == t;
    }
  }

  lemma TrimSpacePrepend(c: char, s: string)
    requires IsAsciiSpace(c)
    ensures TrimSpace([c] + s) == TrimSpace(s)
  {
    assert ([c] + s)[1..] == s;
  }

  lemma {:induction false} TrimLeftIsSuffix(s: string)
    ensures |TrimLeft(s)| <= |s| && TrimLeft(s) == s[|s| - |TrimLeft(s)|..]
    decreases |s|
  {
    if LeadingSpace(s) > 0 {
      TrimLeftIsSuffix(s[LeadingSpace(s)..]);
    }
  }

  lemma {:induction false} TrimRightIsPrefix(s: string)
    ensures TrimRight(s) <= s
    decreases |s|
  {
    if TrailingSpace(s) > 0 {
      TrimRightIsPrefix(s[..|s| - TrailingSpace(s)]);
    }
  }

  lemma {:induction false} TrimLeftHead(s: string)
    ensures LeadingSpace(TrimLeft(s)) == 0
    decreases |s|
  {
    if LeadingSpace(s) > 0 {
      TrimLeftHead(s[LeadingSpace(s)..]);
    }
  }

  /** What trimming leaves does not start with a space. */
  lemma TrimSpaceHead(s: string)
    ensures TrimSpace(s) == "" || !IsAsciiSpace(TrimSpace(s)[0])
  {
    TrimLeftHead(s);
    TrimRightIsPrefix(TrimLeft(s));
  }

  /** n copies of c. */
  function Repeat(c: char, n: nat): string {
    seq(n, _ => c)
  }

  lemma {:induction false} TrimSpacePadded(s: string, n: nat)
    ensures TrimSpace(s + Repeat(' ', n)) == TrimSpace(s)
    decreases n
  {
    if n == 0 {
      assert s + Repeat(' ', 0) == s;
    } else {
      assert s + Repeat(' ', n) == (s + Repeat(' ', n - 1)) + [' '];
      TrimSpaceAppend(s + Repeat(' ', n - 1), ' ');
      TrimSpacePadded(s, n - 1);
    }
  }

  lemma {:induction false} TrimSpaceIndented(s: string, n: nat)
    ensures TrimSpace(Repeat(' ', n) + s) == TrimSpace(s)
    decreases n
  {
    if n == 0 {
      assert Repeat(' ', 0) + s == s;
    } else {
      assert Repeat(' ', n) + s == [' '] + (Repeat(' ', n - 1) + s);
      TrimSpacePrepend(' ', Repeat(' ', n - 1) + s);
      TrimSpaceIndented(s, n - 1);
    }
  }

  /** An ASCII character that is not white space. */
  predicate Plain(c: char) {
    c as int < 0x80 && !IsAsciiSpace(c)
  }

  lemma {:induction false} TrimRightKeeps(s: string, k: nat)
    requires k < |s| && Plain(s[k])
    ensures |TrimRight(s)| > k
    decreases |s|
  {
    if TrailingSpace(s) > 0 {
      TrimRightKeeps(s[..|s| - TrailingSpace(s)], k);
    }
  }

  /** The newline of a line that starts and ends with plain characters is all that
  trimming takes. */
  lemma TrimLine(t: string)
    requires t != "" && Plain(t[0]) && Plain(t[|t| - 1])
    ensures TrimSpace(t + "\n") == t
  {
    TrimSpaceAppend(t, '\n');
    TrimmedIsFixed(t);
  }

  // ----- case -----

  function LowerChar(c: char): char {
    if 'A' <= c <= 'Z' then c - 'A' + 'a' else c
  }

  /** strings.ToLower on ASCII letters. */
  function ToLower(s: string): (r: string)
    ensures |r| == |s|
    ensures forall i :: 0 <= i < |s| ==> r[i] == LowerChar(s[i])
  {
    if s == "" then "" else [LowerChar(s[0])] + ToLower(s[1..])
  }

  /** The letters A to Z become a to z, and nothing else changes. */
  lemma LettersAreFolded(s: string, i: nat, k: nat)
    requires i < |s| && k < 26
    ensures s[i] == "ABCDEFGHIJKLMNOPQRSTUVWXYZ"[k] ==> ToLower(s)[i] == "abcdefghijklmnopqrstuvwxyz"[k]
    ensures s[i] !in "ABCDEFGHIJKLMNOPQRSTUVWXYZ" ==> ToLower(s)[i] == s[i]
  {
    CapitalIs(k);
    SmallIs(k);
    if 'A' <= s[i] <= 'Z' {
      CapitalIs((s[i] - 'A') as nat);
    }
  }

  lemma CapitalIs(k: nat)
    requires k < 26
    ensures "ABCDEFGHIJKLMNOPQRSTUVWXYZ"[k] as int == 'A' as int + k
  {
  }

  lemma SmallIs(k: nat)
    requires k < 26
    ensures "abcdefghijklmnopqrstuvwxyz"[k] as int == 'a' as int + k
  {
  }

  // ----- replacement -----

  /** strings.ReplaceAll for a non-empty pattern: leftmost matches, none overlapping. */
  function ReplaceAll(s: string, pattern: string, with: string): string
    requires pattern != ""
    decreases |s|
  {
    if |s| < |pattern| then s
    else if pattern <= s then with + ReplaceAll(s[|pattern|..], pattern, with)
    else [s[0]] + ReplaceAll(s[1..], pattern, with)
  }

  lemma ReplacePasses(s: string, p: string, v: string)
    requires s != "" && p != "" && !(p <= s)
    ensures ReplaceAll(s, p, v) == [s[0]] + ReplaceAll(s[1..], p, v)
  {
    if |s| < |p| {
      ReplaceShort(s[1..], p, v);
    }
  }

  lemma ReplaceShort(s: string, p: string, v: string)
    requires p != "" && |s| < |p|
    ensures ReplaceAll(s, p, v) == s
  {
  }

  lemma ReplaceMatches(s: string, p: string, v: string)
    requires p != ""
    ensures ReplaceAll(p + s, p, v) == v + ReplaceAll(s, p, v)
  {
    assert (p + s)[|p|..] == s;
  }

  // ----- numbers -----

  const MaxInt: int := 0x7FFF_FFFF_FFFF_FFFF
  const MinInt: int := -0x8000_0000_0000_0000

  /** Two's complement wrap-around to 64 bits. */
  function Wrap64(n: int): int {
    (n - MinInt) % 0x1_0000_0000_0000_0000 + MinInt
  }

  predicate IsDigit(c: char) {
    '0' <= c <= '9'
  }

  function DigitValue(c: char): nat
    requires IsDigit(c)
  {
    c as int - '0' as int
  }

  function DigitChar(d: nat): (c: char)
    requires d < 10
    ensures IsDigit(c) && DigitValue(c) == d
  {
    ('0' as int + d) as char
  }

  predicate AllDigits(s: string) {
    forall i :: 0 <= i < |s| ==> IsDigit(s[i])
  }

  /** The natural number a run of digits denotes; the empty run denotes 0. */
  function Value(s: string): nat
    requires AllDigits(s)
  {
    if s == "" then 0 else 10 * Value(s[..|s| - 1]) + DigitValue(s[|s| - 1])
  }

  function Pow10(n: nat): nat {
    if n == 0 then 1 else 10 * Pow10(n - 1)
  }

  lemma {:induction false} Pow10Grows(m: nat, n: nat)
    requires m <= n
    ensures Pow10(m) <= Pow10(n)
    decreases n
  {
    if m < n {
      Pow10Grows(m, n - 1);
    }
  }

  lemma {:induction false} ValueBelow(s: string)
    requires AllDigits(s)
    ensures Value(s) < Pow10(|s|)
    decreases |s|
  {
    if s != "" {
      ValueBelow(s[..|s| - 1]);
    }
  }

  function ItoaNat(n: nat): (s: string)
    ensures s != "" && AllDigits(s)
    ensures Value(s) == n
    ensures n > 0 ==> s[0] != '0'
  {
    if n < 10 then
      assert [DigitChar(n)][..0] == "";
      [DigitChar(n)]
    else
      var p := ItoaNat(n / 10);
      assert (p + [DigitChar(n % 10)])[..|p|] == p;
      p + [DigitChar(n % 10)]
  }

  /** strconv.Itoa. */
  function Itoa(n: int): string {
    if n < 0 then "-" + ItoaNat(-n) else ItoaNat(n)
  }

  /** What strconv.ParseInt(s, 10, 64) returns: on an error the value is 0 for a
  bad syntax and the nearest bound for a number out of range. */
  datatype Parsed = Parsed(value: int, ok: bool)

  function Signed(negative: bool, n: int): int {
    if negative then -n else n
  }

  function ParseInt(s: string): (p: Parsed)
    ensures MinInt <= p.value <= MaxInt
  {
    var negative := s != "" && s[0] == '-';
    var digits := if s != "" && (s[0] == '-' || s[0] == '+') then s[1..] else s;
    if digits == "" || !AllDigits(digits) then Parsed(0, false)
    else
      var v := Signed(negative, Value(digits));
      if v > MaxInt then Parsed(MaxInt, false)
      else if v < MinInt then Parsed(MinInt, false)
      else Parsed(v, true)
  }

  /** A number of at most k characters, one of which is the sign of a negative one. */
  lemma ParseIntBelow(s: string, k: nat)
    requires |s| <= k && ParseInt(s).ok
    ensures ParseInt(s).value < Pow10(k)
    ensures ParseInt(s).value < 0 ==> k > 0 && 0 < ParseInt(s).value + Pow10(k - 1)
  {
    var digits := if s != "" && (s[0] == '-' || s[0] == '+') then s[1..] else s;
    ValueBelow(digits);
    Pow10Grows(|digits|, k);
    if s[0] == '-' {
      Pow10Grows(|digits|, k - 1);
    }
  }

  /** strconv.Atoi, which succeeds exactly when ParseInt does. */
  function Atoi(s: string): (r: Option<int>)
    ensures r.Some? ==> MinInt <= r.value <= MaxInt
  {
    var p := ParseInt(s);
    if p.ok then Some(p.value) else None
  }

  /** Parsing reads back every printed 64-bit integer. */
  lemma ParseItoa(n: int)
    requires MinInt <= n <= MaxInt
    ensures ParseInt(Itoa(n)) == Parsed(n, true)
    ensures Atoi(Itoa(n)) == Some(n)
  {
    if n < 0 {
      assert Itoa(n)[1..] == ItoaNat(-n);
    }
  }

  /** A number outside the 64-bit range is not read. */
  lemma ParseItoaTooLarge(n: int)
    requires n < -9223372036854775808 || n > 9223372036854775807
    ensures Atoi(Itoa(n)) == None
  {
    if n < 0 {
      assert Itoa(n)[1..] == ItoaNat(-n);
    }
  }

  /** A plus sign is passed over. */
  lemma ParsePlus(n: nat)
    requires n <= 9223372036854775807
    ensures ParseInt("+" + Itoa(n)) == Parsed(n, true)
  {
    assert ("+" + Itoa(n))[1..] == Itoa(n);
  }

  lemma PlainEndsAreTrimmed(s: string)
    requires s != "" && Plain(s[0]) && Plain(s[|s| - 1])
    ensures Trimmed(s)
  {
  }

  lemma ItoaTrimmed(n: int)
    ensures Trimmed(Itoa(n))
  {
    hide ItoaNat, Value, Trimmed;
    var s := Itoa(n);
    assert n < 0 ==> s[|s| - 1] == ItoaNat(-n)[|s| - 2];
    PlainEndsAreTrimmed(s);
  }

  /** A leading zero does not change the value. */
  lemma {:induction false} ValueLeadingZero(s: string)
    requires AllDigits(s)
    ensures Value("0" + s) == Value(s)
    decreases |s|
  {
    if s == "" {
      assert ("0" + s)[..0] == "";
    } else {
      var p := s[..|s| - 1];
      assert ("0" + s)[..|s|] == "0" + p;
      ValueLeadingZero(p);
    }
  }

  // ----- lines -----

  /** s cut after every newline, as successive ReadString('\n') calls return it.
  The last piece has no newline and may be empty. */
  function RawLines(s: string): (lines: seq<string>)
    ensures lines != []
    ensures |lines| <= |s| + 1
    decreases |s|
  {
    var i := IndexOf(s, '\n');
    if i == |s| then [s] else [s[..i + 1]] + RawLines(s[i + 1..])
  }

  function Concat(lines: seq<string>): string {
    if lines == [] then "" else lines[0] + Concat(lines[1..])
  }

  /** The scanners of the model have a buffer of 4 MiB: a line together with its
  newline must fit into it. */
  const MaxToken: nat := 4 * 1024 * 1024

  /** How a line scanner ends. The error of its reader comes to light with the
  last line when that line has no newline, and otherwise after the last line. */
  datatype Ending = AtEnd | FailsAfter | FailsInLast

  /** What a line scanner delivers, and how it ends. */
  datatype Scan = Scan(lines: seq<string>, end: Ending) {
    predicate Failed() {
      end != AtEnd
    }
  }

  function DropCR(line: string): string {
    if line != "" && line[|line| - 1] == '\r' then line[..|line| - 1] else line
  }

  /** The scan of what follows the last newline. */
  function LastScan(rest: string, broken: bool): Scan {
    if rest == "" then Scan([], if broken then FailsAfter else AtEnd)
    else Scan([DropCR(rest)], if broken then FailsInLast else AtEnd)
  }

  /** bufio.Scanner over text. A reader that breaks off at the end of text
  delivers the rest as a line and then its error. */
  function ScanLines(text: string, broken: bool): Scan
    decreases |text|
  {
    var i := IndexOf(text, '\n');
    if i >= MaxToken then Scan([], FailsAfter)
    else if i == |text| then LastScan(text, broken)
    else
      var r := ScanLines(text[i + 1..], broken);
      Scan([DropCR(text[..i])] + r.lines, r.end)
  }

  lemma ScanLine(line: string, rest: string, broken: bool)
    requires '\n' !in line
    ensures ScanLines(line + "\n" + rest, broken) ==
      if |line| >= MaxToken then Scan([], FailsAfter)
      else Scan([DropCR(line)] + ScanLines(rest, broken).lines, ScanLines(rest, broken).end)
  {
    IndexOfAt(line, '\n', rest);
    assert (line + "\n" + rest)[..|line|] == line;
    assert (line + "\n" + rest)[|line| + 1..] == rest;
  }

  lemma ScanLast(line: string, broken: bool)
    requires '\n' !in line
    ensures ScanLines(line, broken) ==
      if |line| >= MaxToken then Scan([], FailsAfter) else LastScan(line, broken)
  {
  }

  lemma DropCRTrims(line: string)
    ensures TrimSpace(DropCR(line)) == TrimSpace(line)
  {
    if DropCR(line) != line {
      assert line == DropCR(line) + ['\r'];
      TrimSpaceAppend(DropCR(line), '\r');
    }
  }
}
