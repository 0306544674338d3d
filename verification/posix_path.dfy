/** The three `os.path` functions the tools use, as CPython's `posixpath`
    defines them: `splitext`, `join` (two arguments) and `dirname`. */
module PosixPath {

  import opened Strings

  /** `s.rfind(c)`: the last index holding `c`, or -1. */
  function RFind(s: string, c: char): (i: int)
    ensures -1 <= i < |s|
    ensures i >= 0 ==> s[i] == c
    ensures forall k :: i < k < |s| ==> s[k] != c
    decreases |s|
  {
    if |s| == 0 then -1
    else if s[|s| - 1] == c then |s| - 1
    else RFind(s[..|s| - 1], c)
  }

  /** Some character of `p[lo..hi]` is not a dot. */
  predicate HasNonDot(p: string, lo: int, hi: int)
    requires 0 <= lo <= hi <= |p|
  {
    exists k :: lo <= k < hi && p[k] != '.'
  }

  /** `os.path.splitext(p)`: the extension runs from the last dot of the last
      path component, unless everything before that dot in the component is
      dots (so `.bashrc` has no extension). */
  function SplitExt(p: string): (r: (string, string))
    ensures r.0 + r.1 == p
    ensures r.1 == [] || r.1[0] == '.'
    ensures forall k :: 0 <= k < |r.1| ==> r.1[k] != '/'
    ensures forall k :: 0 < k < |r.1| ==> r.1[k] != '.'
  {
    var sep := RFind(p, '/');
    var dot := RFind(p, '.');
    if dot > sep && HasNonDot(p, sep + 1, dot) then (p[..dot], p[dot..]) else (p, [])
  }

  /** `splitext` undoes the addition of an extension to a path whose last
      component has something other than dots in it. */
  lemma SplitExtOfAddedExtension(stem: string, e: string)
    requires forall k :: 0 <= k < |e| ==> e[k] != '.' && e[k] != '/'
    requires HasNonDot(stem, RFind(stem, '/') + 1, |stem|)
    ensures SplitExt(stem + "." + e) == (stem, "." + e)
  {
    var ext := "." + e;
    var p := stem + ext;
    assert stem + "." + e == p;
    NoSlashInExtension(e);
    RFindOfExtension(stem, ext, '/');
    LastDotStartsExtension(stem, e);
    var sep := RFind(stem, '/');
    assert RFind(p, '/') == sep && RFind(p, '.') == |stem|;
    var k :| sep + 1 <= k < |stem| && stem[k] != '.';
    assert p[k] == stem[k];
    assert HasNonDot(p, sep + 1, |stem|);
    SplitExtAt(p, sep, |stem|);
    assert p[..|stem|] == stem && p[|stem|..] == ext;
  }

  /** A separator in a path lies before its extension. */
  lemma SlashBeforeExtension(p: string, i: int)
    requires 0 <= i < |p| && p[i] == '/'
    ensures i < |SplitExt(p).0|
  {
  }

  /** `splitext` cuts at the last dot when it follows the last separator and
      the component before it is not all dots. */
  lemma SplitExtAt(p: string, sep: int, dot: int)
    requires 0 <= sep + 1 <= dot < |p|
    requires RFind(p, '/') == sep && RFind(p, '.') == dot
    requires HasNonDot(p, sep + 1, dot)
    ensures SplitExt(p) == (p[..dot], p[dot..])
  {
  }

  lemma NoSlashInExtension(e: string)
    requires forall k :: 0 <= k < |e| ==> e[k] != '/'
    ensures forall k :: 0 <= k < |"." + e| ==> ("." + e)[k] != '/'
  {
    forall k | 0 <= k < |"." + e| ensures ("." + e)[k] != '/' {
      if k > 0 { assert ("." + e)[k] == e[k - 1]; }
    }
  }

  lemma LastDotStartsExtension(stem: string, e: string)
    requires forall k :: 0 <= k < |e| ==> e[k] != '.'
    ensures RFind(stem + "." + e, '.') == |stem|
  {
    RFindOfExtension(stem + ".", e, '.');
  }

  /** A suffix without `c` leaves the last `c` where it was. */
  lemma {:induction false} RFindOfExtension(s: string, t: string, c: char)
    requires forall k :: 0 <= k < |t| ==> t[k] != c
    ensures RFind(s + t, c) == RFind(s, c)
    decreases |t|
  {
    if |t| == 0 {
      assert s + t == s;
    } else {
      assert (s + t)[..|s + t| - 1] == s + t[..|t| - 1];
      RFindOfExtension(s, t[..|t| - 1], c);
    }
  }

  /** What `join(a, b)` puts in front of a relative `b`. */
  function JoinPrefix(a: string): (r: string)
    ensures r == [] || r[|r| - 1] == '/'
    ensures |a| <= |r| <= |a| + 1 && r[..|a|] == a
  {
    if |a| == 0 || a[|a| - 1] == '/' then a else a + "/"
  }

  /** `os.path.join(a, b)`: an absolute `b` replaces `a`; otherwise `b` is
      appended after a separator unless `a` is empty or already ends in one. */
  function Join(a: string, b: string): (r: string)
    ensures |b| > 0 && b[0] == '/' ==> r == b
    ensures |a| == 0 ==> r == b
    ensures !(|b| > 0 && b[0] == '/') ==>
              && |a| + |b| <= |r| <= |a| + |b| + 1
              && r[..|a|] == a
              && r[|r| - |b|..] == b
              && (|r| == |a| + |b| + 1 <==> |a| > 0 && a[|a| - 1] != '/')
              && (|r| == |a| + |b| + 1 ==> r[|a|] == '/')
  {
    if |b| > 0 && b[0] == '/' then b
    else if |a| == 0 || a[|a| - 1] == '/' then a + b
    else a + "/" + b
  }

  predicate NoSlash(s: string) {
    forall k :: 0 <= k < |s| ==> s[k] != '/'
  }

  lemma NoSlashConcat(a: string, b: string)
    requires NoSlash(a) && NoSlash(b)
    ensures NoSlash(a + b)
  {
    forall k | 0 <= k < |a + b| ensures (a + b)[k] != '/' {
      if k >= |a| { assert (a + b)[k] == b[k - |a|]; }
    }
  }

  /** Path `p` names an entry directly inside directory `d`. */
  predicate InDirectory(p: string, d: string) {
    var pre := JoinPrefix(d);
    && |pre| < |p|
    && p[..|pre|] == pre
    && NoSlash(p[|pre|..])
  }

  /** Joining a plain name onto a directory names an entry inside it. */
  lemma JoinInDirectory(d: string, name: string)
    requires |name| > 0
    requires NoSlash(name)
    ensures Join(d, name) == JoinPrefix(d) + name
    ensures InDirectory(Join(d, name), d)
  {
    var r := Join(d, name);
    var pre := JoinPrefix(d);
    assert r == pre + name;
    assert r[|pre|..] == name;
  }

  predicate AllSlashes(s: string) {
    forall k :: 0 <= k < |s| ==> s[k] == '/'
  }

  /** `os.path.dirname(p)`: everything up to the last separator, with
      trailing separators removed unless it is made of separators only. */
  function DirName(p: string): (r: string)
    ensures |r| <= |p| && r == p[..|r|]
    ensures RFind(p, '/') < 0 ==> r == []
    ensures |r| > 0 && r[|r| - 1] == '/' ==> AllSlashes(r)
    ensures RFind(p, '/') >= 0 ==> 0 < |r| <= RFind(p, '/') + 1 && AllSlashes(p[|r|..RFind(p, '/') + 1])
    ensures |r| > 0 && AllSlashes(r) ==> |r| == RFind(p, '/') + 1
  {
    var head := p[..RFind(p, '/') + 1];
    if head != [] && !AllSlashes(head) then
      var r := RStripChar(head, '/');
      assert p[|r|..|head|] == head[|r|..];
      r
    else head
  }
}
