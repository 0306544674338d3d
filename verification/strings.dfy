/** The parts of Python's `str` that the tools rely on, over `seq<char>`:
    `isspace`/`strip`, `isdigit`/`int`, `str(n)`, the `in` substring test,
    `lower`, `lstrip(c)`/`rstrip(c)` and `sep.join`. */
module Strings {

  /** `c.isspace()`: the characters Python treats as whitespace. */
  predicate IsSpace(c: char) {
    || c == ' '
    || ('\t' <= c <= '\r')
    || ('\U{1C}' <= c <= '\U{1F}')
    || c == '\U{85}'
    || c == '\U{A0}'
    || c == '\U{1680}'
    || ('\U{2000}' <= c <= '\U{200A}')
    || c == '\U{2028}'
    || c == '\U{2029}'
    || c == '\U{202F}'
    || c == '\U{205F}'
    || c == '\U{3000}'
  }

  predicate IsDigit(c: char) {
    '0' <= c <= '9'
  }

  /** `s.isdigit()` over ASCII digits: non-empty and digits only. */
  predicate IsDigits(s: string) {
    |s| > 0 && forall k :: 0 <= k < |s| ==> IsDigit(s[k])
  }

  function DigitValue(c: char): (d: nat)
    requires IsDigit(c)
    ensures d < 10
  {
    c as int - '0' as int
  }

  function DigitChar(d: nat): (c: char)
    requires d < 10
    ensures IsDigit(c) && DigitValue(c) == d
  {
    ('0' as int + d) as char
  }

  /** `int(s)` for a string of ASCII digits; a leading zero does not change
      the value. */
  function ParseDecimal(s: string): (n: nat)
    requires forall k :: 0 <= k < |s| ==> IsDigit(s[k])
    ensures |s| > 0 && s[0] == '0' ==> n == ParseDecimal(s[1..])
    decreases |s|
  {
    if |s| == 0 then 0
    else
      assert |s| > 1 ==> s[..|s| - 1][1..] == s[1..][..|s| - 2];
      10 * ParseDecimal(s[..|s| - 1]) + DigitValue(s[|s| - 1])
  }

  /** `str(n)` for a natural number: decimal digits, no leading zero. */
  function NatToString(n: nat): (s: string)
    ensures IsDigits(s)
    ensures (s[0] == '0') == (n == 0)
    decreases n
  {
    if n < 10 then [DigitChar(n)] else NatToString(n / 10) + [DigitChar(n % 10)]
  }

  /** `int(str(n)) == n`. */
  lemma {:induction false} ParseNatToString(n: nat)
    ensures ParseDecimal(NatToString(n)) == n
    decreases n
  {
    if n >= 10 {
      var s := NatToString(n);
      assert s[..|s| - 1] == NatToString(n / 10);
      ParseNatToString(n / 10);
    }
  }

  /** Distinct numbers have distinct decimal spellings. */
  lemma NatToStringInjective(a: nat, b: nat)
    requires NatToString(a) == NatToString(b)
    ensures a == b
  {
    ParseNatToString(a);
    ParseNatToString(b);
  }

  /** `pat` occurs in `s` starting at position `i`. */
  predicate OccursAt(s: string, pat: string, i: int) {
    0 <= i <= |s| - |pat| && s[i..i + |pat|] == pat
  }

  /** Python's `pat in s`: true exactly when `pat` occurs somewhere in `s`. */
  predicate Contains(s: string, pat: string): (b: bool)
    ensures b <==> exists i :: OccursAt(s, pat, i)
    decreases |s|
  {
    if |s| < |pat| then false
    else if s[..|pat|] == pat then assert OccursAt(s, pat, 0); true
    else ShiftOccurs(s, pat); Contains(s[1..], pat)
  }

  /** When `pat` is not at the front of `s`, it occurs in `s` exactly when it
      occurs in `s[1..]`. */
  lemma ShiftOccurs(s: string, pat: string)
    requires |s| >= |pat| && s[..|pat|] != pat
    ensures (exists i :: OccursAt(s, pat, i)) <==> (exists i :: OccursAt(s[1..], pat, i))
  {
    if i :| OccursAt(s, pat, i) {
      assert i != 0;
      assert s[1..][i - 1..i - 1 + |pat|] == s[i..i + |pat|];
      assert OccursAt(s[1..], pat, i - 1);
    }
    if i :| OccursAt(s[1..], pat, i) {
      assert s[1..][i..i + |pat|] == s[i + 1..i + 1 + |pat|];
      assert OccursAt(s, pat, i + 1);
    }
  }

  /** A pattern containing no `sep` and longer than `suffix` does not newly
      occur in `s + suffix` when `suffix` begins with `sep`. */
  lemma {:induction false} ContainsAppend(s: string, suffix: string, pat: string, sep: char)
    requires |suffix| < |pat|
    requires |suffix| > 0 && suffix[0] == sep
    requires forall k :: 0 <= k < |pat| ==> pat[k] != sep
    ensures Contains(s + suffix, pat) == Contains(s, pat)
    decreases |s|
  {
    var t := s + suffix;
    assert |s| < |pat| <= |t| ==> t[..|pat|][|s|] == sep != pat[|s|];
    if |t| < |pat| {
    } else if t[..|pat|] == pat {
      if |s| >= |pat| {
        assert s[..|pat|] == pat;
      }
    } else {
      if |s| > 0 {
        assert t[1..] == s[1..] + suffix;
        ContainsAppend(s[1..], suffix, pat, sep);
        if |s| >= |pat| {
          assert s[..|pat|] == t[..|pat|];
        }
      }
    }
  }

  /** `s.lstrip()`: drops leading whitespace. */
  function StripStart(s: string): (r: string)
    ensures |r| <= |s| && r == s[|s| - |r|..]
    ensures forall k :: 0 <= k < |s| - |r| ==> IsSpace(s[k])
    ensures |r| > 0 ==> !IsSpace(r[0])
    decreases |s|
  {
    if |s| > 0 && IsSpace(s[0]) then StripStart(s[1..]) else s
  }

  /** `s.rstrip()`: drops trailing whitespace. */
  function StripEnd(s: string): (r: string)
    ensures |r| <= |s| && r == s[..|r|]
    ensures forall k :: |r| <= k < |s| ==> IsSpace(s[k])
    ensures |r| > 0 ==> !IsSpace(r[|r| - 1])
    decreases |s|
  {
    if |s| > 0 && IsSpace(s[|s| - 1]) then StripEnd(s[..|s| - 1]) else s
  }

  /** `s.strip()`. The result is a contiguous piece of `s` with only
      whitespace before and after it, it has no whitespace at either end,
      and it is empty exactly when `s` is all whitespace. */
  function Strip(s: string): (r: string)
    ensures exists i :: StrippedAt(s, r, i)
    ensures |r| > 0 ==> !IsSpace(r[0]) && !IsSpace(r[|r| - 1])
    ensures (|r| == 0) == (forall k :: 0 <= k < |s| ==> IsSpace(s[k]))
  {
    TrimmedPiece(s);
    StripEnd(StripStart(s))
  }

  /** Trimming both ends leaves the piece of `s` that starts after the
      leading whitespace. */
  lemma TrimmedPiece(s: string)
    ensures StrippedAt(s, StripEnd(StripStart(s)), |s| - |StripStart(s)|)
  {
    PieceBetweenSpaces(s, StripStart(s), StripEnd(StripStart(s)));
  }

  /** A whitespace-led suffix `t` of `s` and a prefix `r` of `t` followed by
      whitespace make `r` a piece of `s` with whitespace around it. */
  lemma PieceBetweenSpaces(s: string, t: string, r: string)
    requires |t| <= |s| && t == s[|s| - |t|..]
    requires forall k :: 0 <= k < |s| - |t| ==> IsSpace(s[k])
    requires |r| <= |t| && r == t[..|r|]
    requires forall k :: |r| <= k < |t| ==> IsSpace(t[k])
    ensures StrippedAt(s, r, |s| - |t|)
  {
    var i := |s| - |t|;
    assert r == s[i..i + |r|];
    forall k | i + |r| <= k < |s| ensures IsSpace(s[k]) {
      assert s[k] == t[k - i];
    }
  }

  /** `r` is `s[i..i + |r|]` and everything around it is whitespace. */
  predicate StrippedAt(s: string, r: string, i: int) {
    && 0 <= i <= |s| - |r|
    && r == s[i..i + |r|]
    && (forall k :: 0 <= k < i ==> IsSpace(s[k]))
    && (forall k :: i + |r| <= k < |s| ==> IsSpace(s[k]))
  }

  /** A string without whitespace at its ends is its own `strip()`. */
  lemma StripTrimmed(s: string)
    requires |s| == 0 || (!IsSpace(s[0]) && !IsSpace(s[|s| - 1]))
    ensures Strip(s) == s
  {
  }

  /** `s.lstrip(c)`: drops leading copies of `c`. */
  function LStripChar(s: string, c: char): (r: string)
    ensures |r| <= |s| && r == s[|s| - |r|..]
    ensures forall k :: 0 <= k < |s| - |r| ==> s[k] == c
    ensures |r| > 0 ==> r[0] != c
    decreases |s|
  {
    if |s| > 0 && s[0] == c then LStripChar(s[1..], c) else s
  }

  /** `s.rstrip(c)`: drops trailing copies of `c`. */
  function RStripChar(s: string, c: char): (r: string)
    ensures |r| <= |s| && r == s[..|r|]
    ensures forall k :: |r| <= k < |s| ==> s[k] == c
    ensures |r| > 0 ==> r[|r| - 1] != c
    decreases |s|
  {
    if |s| > 0 && s[|s| - 1] == c then RStripChar(s[..|s| - 1], c) else s
  }

  function LowerChar(c: char): char {
    if 'A' <= c <= 'Z' then (c as int - 'A' as int + 'a' as int) as char else c
  }

  /** `s.lower()` over ASCII letters. */
  function ToLower(s: string): (r: string)
    ensures |r| == |s|
    ensures forall k :: 0 <= k < |s| ==> r[k] == LowerChar(s[k])
  {
    seq(|s|, k requires 0 <= k < |s| => LowerChar(s[k]))
  }

  /** The total length of `parts`. */
  function TotalLength(parts: seq<string>): nat
    decreases |parts|
  {
    if |parts| == 0 then 0 else TotalLength(parts[..|parts| - 1]) + |parts[|parts| - 1]|
  }

  /** `sep.join(parts)`. */
  function JoinWith(sep: string, parts: seq<string>): string
    decreases |parts|
  {
    if |parts| == 0 then ""
    else if |parts| == 1 then parts[0]
    else JoinWith(sep, parts[..|parts| - 1]) + sep + parts[|parts| - 1]
  }

  /** `sep.join(parts)` starts with the first part and ends with the last. */
  lemma {:induction false} JoinWithShape(sep: string, parts: seq<string>)
    ensures var r := JoinWith(sep, parts);
            && (|parts| > 0 ==> |parts[0]| <= |r| && r[..|parts[0]|] == parts[0])
            && (|parts| > 0 ==>
                  var last := parts[|parts| - 1];
                  |last| <= |r| && r[|r| - |last|..] == last)
    decreases |parts|
  {
    if |parts| > 1 {
      var init := parts[..|parts| - 1];
      JoinWithShape(sep, init);
      var j := JoinWith(sep, init);
      var r := j + sep + parts[|parts| - 1];
      assert init[0] == parts[0];
      assert r[..|parts[0]|] == j[..|parts[0]|];
    }
  }

  /** `sep.join(parts)` holds every part plus one separator between each
      two. */
  lemma {:induction false} JoinWithLength(sep: string, parts: seq<string>)
    ensures |JoinWith(sep, parts)| == TotalLength(parts) + (if |parts| == 0 then 0 else (|parts| - 1) * |sep|)
    decreases |parts|
  {
    if |parts| > 1 {
      var init := parts[..|parts| - 1];
      JoinWithLength(sep, init);
      assert (|parts| - 1) * |sep| == (|init| - 1) * |sep| + |sep|;
    }
  }

  /** `a` can be obtained from `b` by deleting elements. */
  predicate IsSubsequence<T(==)>(a: seq<T>, b: seq<T>)
    decreases |b|
  {
    || |a| == 0
    || (|b| > 0 && ((a[0] == b[0] && IsSubsequence(a[1..], b[1..])) || IsSubsequence(a, b[1..])))
  }

  lemma {:induction false} SubsequenceTransitive<T>(a: seq<T>, b: seq<T>, c: seq<T>)
    requires IsSubsequence(a, b) && IsSubsequence(b, c)
    ensures IsSubsequence(a, c)
    decreases |c|
  {
    if |a| == 0 {
    } else if IsSubsequence(b, c[1..]) {
      SubsequenceTransitive(a, b, c[1..]);
    } else {
      assert b[0] == c[0] && IsSubsequence(b[1..], c[1..]);
      if a[0] == b[0] && IsSubsequence(a[1..], b[1..]) {
        SubsequenceTransitive(a[1..], b[1..], c[1..]);
      } else {
        SubsequenceTransitive(a, b[1..], c[1..]);
      }
    }
  }

  lemma {:induction false} SuffixIsSubsequence<T>(s: seq<T>, i: nat)
    requires i <= |s|
    ensures IsSubsequence(s[i..], s)
    decreases i
  {
    if i == 0 {
      PrefixIsSubsequence(s, |s|);
      assert s[..|s|] == s[0..];
    } else {
      SuffixIsSubsequence(s[1..], i - 1);
      assert s[1..][i - 1..] == s[i..];
    }
  }

  lemma {:induction false} PrefixIsSubsequence<T>(s: seq<T>, m: nat)
    requires m <= |s|
    ensures IsSubsequence(s[..m], s)
    decreases |s|
  {
    if m > 0 {
      PrefixIsSubsequence(s[1..], m - 1);
      assert s[..m][1..] == s[1..][..m - 1];
    }
  }

  /** `s.strip()` only deletes characters. */
  lemma StripIsSubsequence(s: string)
    ensures IsSubsequence(Strip(s), s)
  {
    var t := StripStart(s);
    SuffixIsSubsequence(s, |s| - |t|);
    PrefixIsSubsequence(t, |StripEnd(t)|);
    SubsequenceTransitive(Strip(s), t, s);
  }
}
