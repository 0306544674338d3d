/** File-name helpers of the download backend: `sanitize_filename` and
    `auto_number`. The file system is a finite set of existing paths. */
module FileNames {

  import opened Strings
  import opened PosixPath

  /** The twelve characters `sanitize_filename` deletes. */
  predicate IsForbidden(c: char) {
    c in {'<', '>', ':', '\"', '/', '\\', '|', '?', '*', '\n', '\r', '\t'}
  }

  /** Deletes every forbidden character and keeps the rest in order. */
  function DropForbidden(s: string): (r: string)
    ensures forall k :: 0 <= k < |r| ==> !IsForbidden(r[k])
    ensures forall c :: !IsForbidden(c) ==> multiset(r)[c] == multiset(s)[c]
    ensures IsSubsequence(r, s)
    decreases |s|
  {
    if |s| == 0 then ""
    else
      var rest := DropForbidden(s[1..]);
      assert s == [s[0]] + s[1..];
      if IsForbidden(s[0]) then rest else [s[0]] + rest
  }

  /** A string without forbidden characters loses nothing. */
  lemma {:induction false} DropForbiddenKeepsClean(s: string)
    requires forall k :: 0 <= k < |s| ==> !IsForbidden(s[k])
    ensures DropForbidden(s) == s
    decreases |s|
  {
    if |s| > 0 {
      DropForbiddenKeepsClean(s[1..]);
    }
  }

  /** A name `sanitize_filename` leaves as it is: no forbidden character
      and no whitespace at either end. */
  predicate IsCleanName(s: string) {
    && (forall k :: 0 <= k < |s| ==> !IsForbidden(s[k]))
    && (|s| > 0 ==> !IsSpace(s[0]) && !IsSpace(s[|s| - 1]))
  }

  /** `sanitize_filename(name)`: forbidden characters deleted, then the
      surrounding whitespace stripped. The result is the piece of the
      forbidden-free name between its leading and trailing whitespace. */
  function SanitizeFilename(name: string): (r: string)
    ensures IsCleanName(r)
    ensures IsSubsequence(r, name)
    ensures exists i :: StrippedAt(DropForbidden(name), r, i)
  {
    StripKeepsClean(DropForbidden(name));
    StripIsSubsequence(DropForbidden(name));
    SubsequenceTransitive(Strip(DropForbidden(name)), DropForbidden(name), name);
    Strip(DropForbidden(name))
  }

  /** Stripping a string without forbidden characters leaves none. */
  lemma StripKeepsClean(s: string)
    requires forall k :: 0 <= k < |s| ==> !IsForbidden(s[k])
    ensures forall k :: 0 <= k < |Strip(s)| ==> !IsForbidden(Strip(s)[k])
  {
    var r := Strip(s);
    var i :| StrippedAt(s, r, i);
    forall k | 0 <= k < |r| ensures !IsForbidden(r[k]) {
      assert r[k] == s[i + k];
    }
  }

  /** Sanitising twice is sanitising once. */
  lemma SanitizeIdempotent(name: string)
    ensures SanitizeFilename(SanitizeFilename(name)) == SanitizeFilename(name)
  {
    SanitizeKeepsClean(SanitizeFilename(name));
  }

  /** A name that is already clean and trimmed is left as it is. */
  lemma SanitizeKeepsClean(s: string)
    requires IsCleanName(s)
    ensures SanitizeFilename(s) == s
  {
    DropForbiddenKeepsClean(s);
    StripTrimmed(s);
  }

  /** The `k`-th numbered alternative, `f"{base} ({k}){ext}"`. */
  function Numbered(base: string, ext: string, k: nat): (r: string)
    ensures |r| >= |base| + |ext| + 4
    ensures r[..|base|] == base && r[|r| - |ext|..] == ext
  {
    base + " (" + NatToString(k) + ")" + ext
  }

  /** Different counters give different alternatives. */
  lemma NumberedInjective(base: string, ext: string, j: nat, k: nat)
    requires Numbered(base, ext, j) == Numbered(base, ext, k)
    ensures j == k
  {
    var x := Numbered(base, ext, j);
    var sj, sk := NatToString(j), NatToString(k);
    assert |sj| == |sk|;
    assert x[|base| + 2 .. |base| + 2 + |sj|] == sj;
    assert Numbered(base, ext, k)[|base| + 2 .. |base| + 2 + |sk|] == sk;
    NatToStringInjective(j, k);
  }

  /** The alternatives `1 .. n`. */
  function Tried(base: string, ext: string, n: nat): set<string>
    decreases n
  {
    if n == 0 then {} else Tried(base, ext, n - 1) + {Numbered(base, ext, n)}
  }

  lemma {:induction false} NumberedNotTried(base: string, ext: string, m: nat, n: nat)
    requires m < n
    ensures Numbered(base, ext, n) !in Tried(base, ext, m)
    decreases m
  {
    if m > 0 {
      NumberedNotTried(base, ext, m - 1, n);
      if Numbered(base, ext, n) == Numbered(base, ext, m) {
        NumberedInjective(base, ext, n, m);
      }
    }
  }

  lemma {:induction false} TriedSize(base: string, ext: string, n: nat)
    ensures |Tried(base, ext, n)| == n
    decreases n
  {
    if n > 0 {
      TriedSize(base, ext, n - 1);
      NumberedNotTried(base, ext, n - 1, n);
    }
  }

  /** `base + ext` itself is never one of its numbered alternatives. */
  lemma {:induction false} UnnumberedNotTried(base: string, ext: string, n: nat)
    ensures base + ext !in Tried(base, ext, n)
    decreases n
  {
    if n > 0 {
      UnnumberedNotTried(base, ext, n - 1);
      assert |Numbered(base, ext, n)| > |base + ext|;
    }
  }

  lemma {:induction false} TriedWithin(base: string, ext: string, n: nat, existing: set<string>)
    requires forall j :: 1 <= j <= n ==> Numbered(base, ext, j) in existing
    ensures Tried(base, ext, n) <= existing
    decreases n
  {
    if n > 0 {
      TriedWithin(base, ext, n - 1, existing);
    }
  }

  lemma SubsetSize<T>(a: set<T>, b: set<T>)
    requires a <= b
    ensures |a| <= |b|
  {
    assert b == a + (b - a);
  }

  /** The termination argument of `auto_number`: when `path` and its first
      `n` numbered alternatives all exist, they are `n + 1` distinct
      existing paths, so `n` stays below the number of existing paths. */
  lemma CounterBound(path: string, existing: set<string>, n: nat)
    requires path in existing
    requires forall j :: 1 <= j <= n ==> Numbered(SplitExt(path).0, SplitExt(path).1, j) in existing
    ensures n < |existing|
  {
    var (base, ext) := SplitExt(path);
    TriedWithin(base, ext, n, existing);
    TriedSize(base, ext, n);
    UnnumberedNotTried(base, ext, n);
    SubsetSize(Tried(base, ext, n) + {path}, existing);
  }

  /** The first free counter at or after `k`, given that `path` and the
      alternatives below `k` all exist. */
  function FreeCounter(path: string, existing: set<string>, k: nat): (n: nat)
    requires k >= 1 && path in existing
    requires forall j :: 1 <= j < k ==> Numbered(SplitExt(path).0, SplitExt(path).1, j) in existing
    ensures k <= n <= |existing|
    ensures Numbered(SplitExt(path).0, SplitExt(path).1, n) !in existing
    ensures forall j :: 1 <= j < n ==> Numbered(SplitExt(path).0, SplitExt(path).1, j) in existing
    decreases |existing| - k
  {
    CounterBound(path, existing, k - 1);
    if Numbered(SplitExt(path).0, SplitExt(path).1, k) !in existing then k
    else FreeCounter(path, existing, k + 1)
  }

  /** The counter `auto_number` settles on: 0 when `path` is free. */
  function AutoNumberCounter(path: string, existing: set<string>): (n: nat)
    ensures (n == 0) == (path !in existing)
    ensures n <= |existing|
  {
    if path !in existing then 0 else FreeCounter(path, existing, 1)
  }

  /** `auto_number(path)`: `path` when it is free, otherwise the numbered
      alternative with the smallest free counter. */
  function AutoNumber(path: string, existing: set<string>): (r: string)
    ensures r !in existing
    ensures path !in existing ==> r == path
    ensures path in existing ==>
              var (base, ext) := SplitExt(path);
              var n := AutoNumberCounter(path, existing);
              && 1 <= n <= |existing|
              && r == Numbered(base, ext, n)
              && forall j :: 1 <= j < n ==> Numbered(base, ext, j) in existing
  {
    var n := AutoNumberCounter(path, existing);
    if n == 0 then path else Numbered(SplitExt(path).0, SplitExt(path).1, n)
  }

  /** The `while os.path.exists(new_path)` loop of `auto_number`. */
  method AutoNumberLoop(path: string, existing: set<string>) returns (newPath: string)
    ensures newPath !in existing
    ensures newPath == AutoNumber(path, existing)
  {
    var (base, ext) := SplitExt(path);
    var counter: nat := 1;
    newPath := path;
    while newPath in existing
      invariant counter >= 1
      invariant counter == 1 ==> newPath == path
      invariant counter > 1 ==> path in existing && newPath == Numbered(base, ext, counter - 1)
      invariant forall j :: 1 <= j < counter - 1 ==> Numbered(base, ext, j) in existing
      decreases |existing| + 1 - counter
    {
      if counter > 1 {
        CounterBound(path, existing, counter - 1);
      }
      newPath := Numbered(base, ext, counter);
      counter := counter + 1;
    }
  }

  /** Numbering only touches the last path component, so a path directly
      inside `d` stays directly inside `d`. */
  lemma AutoNumberInDirectory(p: string, d: string, existing: set<string>)
    requires InDirectory(p, d)
    ensures InDirectory(AutoNumber(p, existing), d)
  {
    if p in existing {
      DirectoryBeforeExtension(p, d);
      var n := AutoNumberCounter(p, existing);
      var mid := " (" + NatToString(n) + ")";
      assert AutoNumber(p, existing) == SplitExt(p).0 + mid + SplitExt(p).1;
      NumberSuffixNoSlash(n);
      InsertInDirectory(p, d, SplitExt(p).0, mid, SplitExt(p).1);
    }
  }

  /** The directory part of a path lies before its extension. */
  lemma DirectoryBeforeExtension(p: string, d: string)
    requires InDirectory(p, d)
    ensures |JoinPrefix(d)| <= |SplitExt(p).0|
  {
    var pre := JoinPrefix(d);
    if |pre| > 0 {
      assert p[..|pre|] == pre;
      assert p[|pre| - 1] == p[..|pre|][|pre| - 1];
      SlashBeforeExtension(p, |pre| - 1);
    }
  }

  /** Inserting slash-free text into the last component of a path keeps it
      in its directory. */
  lemma InsertInDirectory(p: string, d: string, base: string, mid: string, ext: string)
    requires InDirectory(p, d) && p == base + ext
    requires |JoinPrefix(d)| <= |base|
    requires NoSlash(mid) && NoSlash(ext)
    ensures InDirectory(base + mid + ext, d)
  {
    var pre := JoinPrefix(d);
    assert p[|pre|..] == base[|pre|..] + ext;
    NoSlashPrefix(base[|pre|..], ext);
    NoSlashConcat(base[|pre|..], mid);
    NoSlashConcat(base[|pre|..] + mid, ext);
    assert (base + mid + ext)[|pre|..] == base[|pre|..] + mid + ext;
    assert (base + mid + ext)[..|pre|] == p[..|pre|];
  }

  lemma NoSlashPrefix(a: string, b: string)
    requires NoSlash(a + b)
    ensures NoSlash(a)
  {
    assert forall k :: 0 <= k < |a| ==> a[k] == (a + b)[k];
  }

  lemma NumberSuffixNoSlash(n: nat)
    ensures NoSlash(" (" + NatToString(n) + ")")
  {
    var digits := NatToString(n);
    var mid := " (" + digits + ")";
    forall k | 0 <= k < |mid| ensures mid[k] != '/' {
      assert 2 <= k < 2 + |digits| ==> mid[k] == digits[k - 2];
    }
  }
}
