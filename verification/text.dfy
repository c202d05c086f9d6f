/**
 * The Kotlin string operations the core relies on (`startsWith`, `indexOf`,
 * `split`, `trim`, `removeSurrounding`, `padStart`, `Int.toString`,
 * `compareTo`, ASCII case folding), each with a contract stating what it
 * computes and, where one exists, the inverse it is paired with.
 */
module Text {
  import opened Wrappers

  predicate StartsWith(s: string, p: string) {
    |p| <= |s| && s[..|p|] == p
  }

  predicate EndsWith(s: string, suf: string) {
    |suf| <= |s| && s[|s| - |suf|..] == suf
  }

  /** `sub` occurs in `s` starting at index `i`. */
  predicate OccursAt(s: string, sub: string, i: int) {
    0 <= i && i + |sub| <= |s| && s[i..i + |sub|] == sub
  }

  /** The first occurrence of `sub` in `s` at or after `from`. */
  function IndexOfFrom(s: string, sub: string, from: nat): (r: Option<nat>)
    decreases |s| - from
    ensures r.Some? ==> from <= r.value && OccursAt(s, sub, r.value)
    ensures r.Some? ==> forall j :: from <= j < r.value ==> !OccursAt(s, sub, j)
    ensures r.None? ==> forall j :: from <= j ==> !OccursAt(s, sub, j)
  {
    if from + |sub| > |s| then None
    else if s[from..from + |sub|] == sub then Some(from)
    else IndexOfFrom(s, sub, from + 1)
  }

  /** Kotlin `indexOf(sub)`: the first occurrence, `None` for -1. */
  function IndexOf(s: string, sub: string): (r: Option<nat>)
    ensures r.Some? ==> OccursAt(s, sub, r.value)
    ensures r.Some? ==> forall j :: 0 <= j < r.value ==> !OccursAt(s, sub, j)
    ensures r.None? <==> forall j :: !OccursAt(s, sub, j)
  {
    IndexOfFrom(s, sub, 0)
  }

  /** Kotlin `contains(sub)`. */
  function Contains(s: string, sub: string): (b: bool)
    ensures b <==> exists i :: OccursAt(s, sub, i)
  {
    IndexOf(s, sub).Some?
  }

  /** A loop over `entries` from `k` that stops at the first one `s` contains. */
  function ContainsAnyFrom(s: string, entries: seq<string>, k: nat): (b: bool)
    requires k <= |entries|
    decreases |entries| - k
    ensures b <==> exists j :: k <= j < |entries| && Contains(s, entries[j])
  {
    if k == |entries| then false
    else Contains(s, entries[k]) || ContainsAnyFrom(s, entries, k + 1)
  }

  /** Kotlin `substringAfter(d)`: the text after the first `d`, or all of `s`. */
  function SubstringAfter(s: string, d: string): (r: string)
    ensures !Contains(s, d) ==> r == s
    ensures Contains(s, d) ==>
      && |r| + |d| <= |s|
      && r == s[|s| - |r|..]
      && OccursAt(s, d, |s| - |r| - |d|)
      && forall j :: 0 <= j < |s| - |r| - |d| ==> !OccursAt(s, d, j)
  {
    match IndexOf(s, d)
    case None => s
    case Some(i) => s[i + |d|..]
  }

  /** The last position of `c` in `s`. */
  function LastIndexOfChar(s: string, c: char): (r: Option<nat>)
    ensures r.Some? ==> r.value < |s| && s[r.value] == c
    ensures r.Some? ==> forall j :: r.value < j < |s| ==> s[j] != c
    ensures r.None? ==> forall j :: 0 <= j < |s| ==> s[j] != c
  {
    if |s| == 0 then None
    else if s[|s| - 1] == c then Some(|s| - 1)
    else LastIndexOfChar(s[..|s| - 1], c)
  }

  /** Kotlin `File.extension`: `name.substringAfterLast('.', "")`. */
  function Extension(name: string): string {
    match LastIndexOfChar(name, '.')
    case None => ""
    case Some(i) => name[i + 1..]
  }

  /** The extension test `extension == "jpg"` is exactly a ".jpg" suffix test. */
  lemma ExtensionJpg(name: string)
    ensures Extension(name) == "jpg" <==> EndsWith(name, ".jpg")
  {
    if Extension(name) == "jpg" {
      var i := LastIndexOfChar(name, '.').value;
      assert name[i + 1..] == "jpg";
      assert name[|name| - 4..] == [name[i]] + name[i + 1..];
    }
    if EndsWith(name, ".jpg") {
      var k := |name| - 4;
      assert name[k..] == ".jpg";
      assert name[k] == '.';
      assert forall j :: k < j < |name| ==> name[j] == name[k..][j - k];
      assert LastIndexOfChar(name, '.') == Some(k);
    }
  }

  // ---------------------------------------------------------------------
  // split / joinToString on a one-character delimiter

  /** Kotlin `joinToString(c.toString())`. */
  function Join(parts: seq<string>, c: char): string {
    if |parts| == 0 then ""
    else if |parts| == 1 then parts[0]
    else parts[0] + [c] + Join(parts[1..], c)
  }

  /** Kotlin `split(c.toString())`: every piece, empty ones included. */
  function Split(s: string, c: char): (parts: seq<string>)
    ensures |parts| >= 1
    ensures forall k :: 0 <= k < |parts| ==> c !in parts[k]
    ensures Join(parts, c) == s
  {
    if |s| == 0 then [""]
    else
      var rest := Split(s[1..], c);
      if s[0] == c then
        assert Join([""] + rest, c) == [c] + Join(rest, c);
        [""] + rest
      else
        assert Join([[s[0]] + rest[0]] + rest[1..], c) == [s[0]] + Join(rest, c);
        [[s[0]] + rest[0]] + rest[1..]
  }

  /** A string free of the delimiter splits into itself alone. */
  lemma {:induction false} SplitNoDelimiter(p: string, c: char)
    requires c !in p
    ensures Split(p, c) == [p]
  {
    if |p| > 0 {
      SplitNoDelimiter(p[1..], c);
      assert [p[0]] + p[1..] == p;
    }
  }

  /** Splitting `p + c + t` peels off `p` when `p` is free of the delimiter. */
  lemma {:induction false} SplitCons(p: string, c: char, t: string)
    requires c !in p
    ensures Split(p + [c] + t, c) == [p] + Split(t, c)
  {
    if |p| == 0 {
      assert p + [c] + t == [c] + t;
      assert ([c] + t)[1..] == t;
    } else {
      var s := p + [c] + t;
      assert s[0] == p[0] && s[1..] == p[1..] + [c] + t;
      var rest := Split(s[1..], c);
      assert rest == [p[1..]] + Split(t, c) by {
        SplitCons(p[1..], c, t);
      }
      assert Split(s, c) == [[s[0]] + rest[0]] + rest[1..];
      assert rest[0] == p[1..] && rest[1..] == Split(t, c);
      assert [p[0]] + p[1..] == p;
    }
  }

  /** `split` inverts `joinToString` for delimiter-free, non-empty part lists. */
  lemma {:induction false} SplitJoin(parts: seq<string>, c: char)
    requires |parts| >= 1
    requires forall k :: 0 <= k < |parts| ==> c !in parts[k]
    ensures Split(Join(parts, c), c) == parts
  {
    if |parts| == 1 {
      SplitNoDelimiter(parts[0], c);
    } else {
      SplitJoin(parts[1..], c);
      SplitCons(parts[0], c, Join(parts[1..], c));
      assert [parts[0]] + parts[1..] == parts;
    }
  }

  /** Joining a list of two or more parts and appending `c + t` puts `c + t` after the tail's join. */
  lemma JoinThenAppend(parts: seq<string>, c: char, t: string)
    requires |parts| >= 2
    ensures Join(parts, c) + [c] + t == parts[0] + [c] + (Join(parts[1..], c) + [c] + t)
  {
    var rest := Join(parts[1..], c);
    assert Join(parts, c) == parts[0] + [c] + rest;
  }

  /** Splitting a joined prefix followed by the delimiter keeps the prefix's parts. */
  lemma {:induction false} SplitJoinAppend(parts: seq<string>, c: char, t: string)
    requires |parts| >= 1
    requires forall k :: 0 <= k < |parts| ==> c !in parts[k]
    ensures Split(Join(parts, c) + [c] + t, c) == parts + Split(t, c)
  {
    if |parts| == 1 {
      SplitCons(parts[0], c, t);
    } else {
      var tail := parts[1..];
      var u := Join(tail, c) + [c] + t;
      calc {
        Split(Join(parts, c) + [c] + t, c);
        { JoinThenAppend(parts, c, t); }
        Split(parts[0] + [c] + u, c);
        { SplitCons(parts[0], c, u); }
        [parts[0]] + Split(u, c);
        { assert forall k :: 0 <= k < |tail| ==> tail[k] == parts[k + 1];
          SplitJoinAppend(tail, c, t); }
        [parts[0]] + (tail + Split(t, c));
        { assert [parts[0]] + tail == parts; }
        parts + Split(t, c);
      }
    }
  }

  // ---------------------------------------------------------------------
  // trim

  /** Kotlin `Char.isWhitespace()` on the JVM: `Character.isWhitespace || isSpaceChar`. */
  predicate IsWhitespace(c: char) {
    var n := c as int;
    || (9 <= n <= 13) || (0x1C <= n <= 0x20)
    || n == 0xA0 || n == 0x1680 || (0x2000 <= n <= 0x200A)
    || n == 0x2028 || n == 0x2029 || n == 0x202F || n == 0x205F || n == 0x3000
  }

  /** Kotlin `isBlank()`: empty or whitespace only. */
  predicate IsBlank(s: string) {
    forall i :: 0 <= i < |s| ==> IsWhitespace(s[i])
  }

  /** The index of the first non-whitespace character at or after `i` (`|s|` if none). */
  function SkipWhitespace(s: string, i: nat): (k: nat)
    requires i <= |s|
    decreases |s| - i
    ensures i <= k <= |s|
    ensures forall j :: i <= j < k ==> IsWhitespace(s[j])
    ensures k < |s| ==> !IsWhitespace(s[k])
  {
    if i < |s| && IsWhitespace(s[i]) then SkipWhitespace(s, i + 1) else i
  }

  /** The end of `s[lo..e]` once trailing whitespace is dropped. */
  function SkipWhitespaceBack(s: string, lo: nat, e: nat): (k: nat)
    requires lo <= e <= |s|
    ensures lo <= k <= e
    ensures forall j :: k <= j < e ==> IsWhitespace(s[j])
    ensures k > lo ==> !IsWhitespace(s[k - 1])
  {
    if e > lo && IsWhitespace(s[e - 1]) then SkipWhitespaceBack(s, lo, e - 1) else e
  }

  /** Kotlin `trim()`: the slice between the first and the last non-whitespace character. */
  function Trim(s: string): (r: string)
    ensures var a := SkipWhitespace(s, 0);
      && a + |r| <= |s| && r == s[a..a + |r|]
      && (forall i :: 0 <= i < a ==> IsWhitespace(s[i]))
      && (forall i :: a + |r| <= i < |s| ==> IsWhitespace(s[i]))
    ensures |r| > 0 ==> !IsWhitespace(r[0]) && !IsWhitespace(r[|r| - 1])
    ensures |r| == 0 <==> IsBlank(s)
  {
    var a := SkipWhitespace(s, 0);
    var b := SkipWhitespaceBack(s, a, |s|);
    s[a..b]
  }

  /** `trim()` only removes characters: one absent from `s` is absent from its trimmed form. */
  lemma TrimKeepsAbsent(s: string, c: char)
    requires c !in s
    ensures c !in Trim(s)
  {
    var r := Trim(s);
    var a := SkipWhitespace(s, 0);
    forall i | 0 <= i < |r| ensures r[i] != c {
      assert r[i] == s[a + i];
    }
  }

  /** A string whose ends are not whitespace is left alone by `trim()`. */
  lemma TrimNoOp(s: string)
    requires |s| > 0 ==> !IsWhitespace(s[0]) && !IsWhitespace(s[|s| - 1])
    ensures Trim(s) == s
  {
  }

  /** Kotlin `removeSurrounding(p, q)`: strips both only when both are present and do not overlap. */
  function RemoveSurrounding(s: string, p: string, q: string): (r: string)
    ensures |s| >= |p| + |q| && StartsWith(s, p) && EndsWith(s, q) ==> s == p + r + q
    ensures !(|s| >= |p| + |q| && StartsWith(s, p) && EndsWith(s, q)) ==> r == s
  {
    if |s| >= |p| + |q| && StartsWith(s, p) && EndsWith(s, q) then
      var r := s[|p|..|s| - |q|];
      assert s == s[..|p|] + r + s[|s| - |q|..];
      r
    else s
  }

  lemma RemoveSurroundingWrapped(p: string, r: string, q: string)
    ensures RemoveSurrounding(p + r + q, p, q) == r
  {
    var s := p + r + q;
    assert s[..|p|] == p;
    assert s[|s| - |q|..] == q;
  }

  // ---------------------------------------------------------------------
  // padStart and decimal conversion

  /** Kotlin `padStart(n, c)`. */
  function PadStart(s: string, n: nat, c: char): (r: string)
    ensures |r| == if |s| >= n then |s| else n
    ensures EndsWith(r, s)
    ensures forall i :: 0 <= i < |r| - |s| ==> r[i] == c
  {
    if |s| >= n then s else seq(n - |s|, _ => c) + s
  }

  predicate IsDigit(c: char) {
    '0' <= c <= '9'
  }

  predicate AllDigits(s: string) {
    forall i :: 0 <= i < |s| ==> IsDigit(s[i])
  }

  function DigitChar(d: nat): (c: char)
    requires d < 10
    ensures IsDigit(c)
  {
    ('0' as int + d) as char
  }

  function DigitValue(c: char): (d: nat)
    requires IsDigit(c)
    ensures d < 10 && DigitChar(d) == c
  {
    (c as int - '0' as int) as nat
  }

  /** The number a decimal digit string denotes. */
  function ParseDecimal(s: string): nat
    requires AllDigits(s)
  {
    if |s| == 0 then 0 else ParseDecimal(s[..|s| - 1]) * 10 + DigitValue(s[|s| - 1])
  }

  /** Kotlin `Int.toString()` on a non-negative value. */
  function Decimal(n: nat): (r: string)
    ensures |r| >= 1 && AllDigits(r)
    ensures ParseDecimal(r) == n
    ensures n > 0 ==> r[0] != '0'
  {
    if n < 10 then [DigitChar(n)]
    else
      var r := Decimal(n / 10) + [DigitChar(n % 10)];
      assert r[..|r| - 1] == Decimal(n / 10);
      r
  }

  /** Leading zeros do not change the number a digit string denotes. */
  lemma {:induction false} ParseLeadingZeros(z: string, s: string)
    requires forall i :: 0 <= i < |z| ==> z[i] == '0'
    requires AllDigits(s)
    ensures AllDigits(z + s)
    ensures ParseDecimal(z + s) == ParseDecimal(s)
  {
    if |s| == 0 {
      assert z + s == z;
      ParseZeros(z);
    } else {
      var t := z + s;
      assert t[..|t| - 1] == z + s[..|s| - 1];
      ParseLeadingZeros(z, s[..|s| - 1]);
    }
  }

  lemma {:induction false} ParseZeros(z: string)
    requires forall i :: 0 <= i < |z| ==> z[i] == '0'
    ensures AllDigits(z) && ParseDecimal(z) == 0
  {
    if |z| > 0 {
      ParseZeros(z[..|z| - 1]);
    }
  }

  /** Zero-padding a decimal rendering keeps its value, so distinct numbers stay distinct. */
  lemma PadDecimalValue(n: nat, w: nat)
    ensures AllDigits(PadStart(Decimal(n), w, '0'))
    ensures ParseDecimal(PadStart(Decimal(n), w, '0')) == n
  {
    var d := Decimal(n);
    var r := PadStart(d, w, '0');
    var z := r[..|r| - |d|];
    assert r == z + d;
    ParseLeadingZeros(z, d);
  }

  lemma PadDecimalInjective(a: nat, b: nat, w: nat)
    requires PadStart(Decimal(a), w, '0') == PadStart(Decimal(b), w, '0')
    ensures a == b
  {
    PadDecimalValue(a, w);
    PadDecimalValue(b, w);
  }

  /** Below 1000 the three-digit padding is the hundreds, tens and units digits. */
  lemma Pad3Digits(n: nat)
    requires n < 1000
    ensures PadStart(Decimal(n), 3, '0') == [DigitChar(n / 100), DigitChar(n / 10 % 10), DigitChar(n % 10)]
  {
    if n >= 100 {
      assert Decimal(n / 10) == Decimal(n / 10 / 10) + [DigitChar(n / 10 % 10)];
      assert n / 10 / 10 == n / 100;
    } else if n >= 10 {
      assert n / 100 == 0;
    }
  }

  // ---------------------------------------------------------------------
  // ASCII case folding

  function LowerChar(c: char): char {
    if 'A' <= c <= 'Z' then (c as int + 32) as char else c
  }

  function UpperChar(c: char): char {
    if 'a' <= c <= 'z' then (c as int - 32) as char else c
  }

  /** Kotlin `lowercase()` restricted to ASCII letters. */
  function ToLower(s: string): (r: string)
    ensures |r| == |s|
    ensures forall i :: 0 <= i < |s| ==> r[i] == LowerChar(s[i])
  {
    seq(|s|, i requires 0 <= i < |s| => LowerChar(s[i]))
  }

  /** Kotlin `uppercase()` restricted to ASCII letters. */
  function ToUpper(s: string): (r: string)
    ensures |r| == |s|
    ensures forall i :: 0 <= i < |s| ==> r[i] == UpperChar(s[i])
  {
    seq(|s|, i requires 0 <= i < |s| => UpperChar(s[i]))
  }

  /** Lower-casing is idempotent. */
  lemma ToLowerIdempotent(s: string)
    ensures ToLower(ToLower(s)) == ToLower(s)
  {
  }

  /** Two strings have the same upper-case form iff they agree up to ASCII case. */
  predicate EqualsIgnoreCase(a: string, b: string) {
    ToUpper(a) == ToUpper(b)
  }

  // ---------------------------------------------------------------------
  // String.compareTo

  /**
   * `a.compareTo(b) <= 0`, read as code-point lexicographic order with a proper
   * prefix first; Kotlin compares UTF-16 code units, which differs only on
   * characters outside the Basic Multilingual Plane.
   */
  predicate LexLe(a: string, b: string) {
    |a| == 0 || (|b| > 0 && (a[0] < b[0] || (a[0] == b[0] && LexLe(a[1..], b[1..]))))
  }

  /** The order is total, so `sortedBy` has a well-defined result. */
  lemma {:induction false} LexTotal(a: string, b: string)
    ensures LexLe(a, b) || LexLe(b, a)
  {
    if |a| > 0 && |b| > 0 && a[0] == b[0] {
      LexTotal(a[1..], b[1..]);
    }
  }

  lemma {:induction false} LexAntisymmetric(a: string, b: string)
    requires LexLe(a, b) && LexLe(b, a)
    ensures a == b
  {
    if |a| > 0 && |b| > 0 {
      LexAntisymmetric(a[1..], b[1..]);
      assert a == [a[0]] + a[1..] && b == [b[0]] + b[1..];
    }
  }

  /** A common prefix does not change the comparison. */
  lemma {:induction false} LexCommonPrefix(p: string, a: string, b: string)
    ensures LexLe(p + a, p + b) <==> LexLe(a, b)
  {
    if |p| > 0 {
      assert (p + a)[1..] == p[1..] + a;
      assert (p + b)[1..] == p[1..] + b;
      LexCommonPrefix(p[1..], a, b);
    } else {
      assert p + a == a && p + b == b;
    }
  }

  predicate SortedLex(s: seq<string>) {
    forall i :: 0 <= i < |s| - 1 ==> LexLe(s[i], s[i + 1])
  }

  function InsertLex(x: string, s: seq<string>): (r: seq<string>)
    requires SortedLex(s)
    ensures SortedLex(r)
    ensures multiset(r) == multiset(s) + multiset{x}
    ensures |r| > 0 && (r[0] == x || (|s| > 0 && r[0] == s[0]))
  {
    if |s| == 0 then [x]
    else if LexLe(x, s[0]) then [x] + s
    else
      LexTotal(x, s[0]);
      var t := InsertLex(x, s[1..]);
      assert s == [s[0]] + s[1..];
      [s[0]] + t
  }

  /** Kotlin `sortedBy { it }` on strings: a sorted permutation of the input. */
  function SortLex(s: seq<string>): (r: seq<string>)
    ensures SortedLex(r)
    ensures multiset(r) == multiset(s)
  {
    if |s| == 0 then []
    else
      assert s == [s[0]] + s[1..];
      InsertLex(s[0], SortLex(s[1..]))
  }
}
