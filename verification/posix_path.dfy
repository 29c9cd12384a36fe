/**
 The few string operations on POSIX paths that the container codec relies on:
 `str.endswith`, `str.rfind`, `posixpath.basename` and `posixpath.splitext`.
 Paths are plain strings; the separator is '/' and the extension separator '.'.
 Windows path rules (backslash separators, drive letters) are not modelled.
 */
module PosixPath {

  const Sep: char := '/'
  const ExtSep: char := '.'

  /** Python's `s.endswith(suffix)`. */
  predicate EndsWith(s: string, suffix: string) {
    |suffix| <= |s| && s[|s| - |suffix|..] == suffix
  }

  /** `s` ends with `suffix` exactly when `s` is some string followed by
      `suffix`. */
  lemma EndsWithCharacterised(s: string, suffix: string)
    ensures EndsWith(s, suffix) <==> exists t :: s == t + suffix
  {
    if EndsWith(s, suffix) {
      var t := s[..|s| - |suffix|];
      assert s == t + suffix;
    }
    if exists t :: s == t + suffix {
      var t :| s == t + suffix;
      assert s[|s| - |suffix|..] == suffix;
    }
  }

  /** Python's `s.rfind(c)` for a one-character needle: the index of the last
      occurrence of `c`, or -1 when `c` does not occur at all. */
  function LastIndexOf(s: string, c: char): (r: int)
    ensures -1 <= r < |s|
    ensures r >= 0 ==> s[r] == c
    ensures forall j :: r < j < |s| ==> s[j] != c
    decreases |s|
  {
    if |s| == 0 then -1
    else if s[|s| - 1] == c then |s| - 1
    else LastIndexOf(s[..|s| - 1], c)
  }

  /** `posixpath.basename(p)`: everything after the last '/'. */
  function Basename(p: string): (b: string)
    ensures Sep !in b
    ensures EndsWith(p, b)
  {
    p[LastIndexOf(p, Sep) + 1..]
  }

  /** The basename is the whole last component: it is either the whole path
      or it starts right after a '/'. */
  lemma BasenameIsLastComponent(p: string)
    ensures var b := Basename(p);
            |b| == |p| || p[|p| - |b| - 1] == Sep
  {
  }

  /** True when every character of `s` is a '.', which includes the empty string. */
  predicate AllDots(s: string) {
    forall i :: 0 <= i < |s| ==> s[i] == ExtSep
  }

  /** A basename has an extension exactly when some '.' follows a character that
      is not a '.': leading dots (as in ".bashrc" or "...") never start one. */
  ghost predicate DotAfterNonDot(b: string) {
    exists j, i :: 0 <= j < i < |b| && b[j] != ExtSep && b[i] == ExtSep
  }

  /** What `posixpath.splitext(p)` promises of `(root, ext)`: they concatenate
      back to `p`; `ext` is empty exactly when the basename has no '.' after a
      non-dot character; otherwise `ext` starts with its only '.', and it never
      contains a '/'. */
  ghost predicate IsSplitExt(p: string, root: string, ext: string) {
    && root + ext == p
    && (ext == [] <==> !DotAfterNonDot(Basename(p)))
    && (ext != [] ==> ext[0] == ExtSep)
    && (forall k :: 0 <= k < |ext| ==> ext[k] != Sep)
    && (forall k :: 0 < k < |ext| ==> ext[k] != ExtSep)
  }

  /** `posixpath.splitext(p)` as `(root, ext)`: split at the last '.' that lies
      after the last '/', unless only dots precede that '.' in the basename, in
      which case the extension is empty and the root is the whole path. */
  function SplitExt(p: string): (r: (string, string))
    ensures IsSplitExt(p, r.0, r.1)
  {
    var sep := LastIndexOf(p, Sep);
    var dot := LastIndexOf(p, ExtSep);
    if dot > sep && !AllDots(p[sep + 1..dot]) then
      SplitBranch(p, sep, dot);
      (p[..dot], p[dot..])
    else
      NoSplitBranch(p, sep, dot);
      (p, "")
  }

  /** When `splitext` splits, the basename has a '.' after a non-dot, and the
      extension is the last '.' and what follows it. */
  lemma SplitBranch(p: string, sep: int, dot: int)
    requires sep == LastIndexOf(p, Sep) && dot == LastIndexOf(p, ExtSep)
    requires dot > sep && !AllDots(p[sep + 1..dot])
    ensures IsSplitExt(p, p[..dot], p[dot..])
  {
    SplitBranchHasExtension(p, sep, dot);
    var ext := p[dot..];
    assert p[..dot] + ext == p;
    forall k | 0 <= k < |ext|
      ensures ext[k] != Sep
    {
      assert ext[k] == p[dot + k];
    }
  }

  /** The basename of a path that `splitext` splits has a '.' after a non-dot. */
  lemma SplitBranchHasExtension(p: string, sep: int, dot: int)
    requires sep == LastIndexOf(p, Sep) && dot == LastIndexOf(p, ExtSep)
    requires dot > sep && !AllDots(p[sep + 1..dot])
    ensures DotAfterNonDot(Basename(p))
  {
    var b := Basename(p);
    assert b == p[sep + 1..];
    var m :| 0 <= m < |p[sep + 1..dot]| && p[sep + 1..dot][m] != ExtSep;
    assert b[m] != ExtSep && b[dot - sep - 1] == ExtSep;
  }

  /** When `splitext` does not split, every '.' of the basename is preceded
      only by dots. */
  lemma NoSplitBranch(p: string, sep: int, dot: int)
    requires sep == LastIndexOf(p, Sep) && dot == LastIndexOf(p, ExtSep)
    requires !(dot > sep && !AllDots(p[sep + 1..dot]))
    ensures IsSplitExt(p, p, "")
  {
    var b := Basename(p);
    assert b == p[sep + 1..];
    forall j, i | 0 <= j < i < |b| && b[i] == ExtSep
      ensures b[j] == ExtSep
    {
      assert p[sep + 1 + i] == ExtSep;
      assert sep + 1 + i <= dot;
      assert p[sep + 1..dot][j] == b[j];
    }
    assert p + "" == p;
  }

  /** `LastIndexOf` is pinned down by its contract. */
  lemma LastIndexOfUnique(s: string, c: char, r: int)
    requires -1 <= r < |s|
    requires r >= 0 ==> s[r] == c
    requires forall j :: r < j < |s| ==> s[j] != c
    ensures LastIndexOf(s, c) == r
  {
  }

  /** Appending text that does not contain `c` leaves the last `c` where it was. */
  lemma LastIndexOfAppend(s: string, t: string, c: char)
    requires c !in t
    ensures LastIndexOf(s + t, c) == LastIndexOf(s, c)
  {
    var l := LastIndexOf(s, c);
    forall j | l < j < |s + t|
      ensures (s + t)[j] != c
    {
      if j >= |s| {
        assert (s + t)[j] == t[j - |s|];
      }
    }
    LastIndexOfUnique(s + t, c, l);
  }

  /** What `splitext` does to a path ending in ".smai"-like suffix `"." + ext`
      (with no '.' or '/' in `ext`): it strips exactly that suffix when the
      basename of the stem has a character other than '.', and otherwise leaves
      the whole path as the root. */
  lemma SplitExtStripsSuffix(q: string, ext: string)
    requires Sep !in ext && ExtSep !in ext
    ensures SplitExt(q + [ExtSep] + ext).0
            == if AllDots(Basename(q)) then q + [ExtSep] + ext else q
  {
    var p := q + [ExtSep] + ext;
    SuffixKeepsLastSep(q, ext);
    SuffixDotIsLast(q, ext);
    var sep := LastIndexOf(q, Sep);
    assert p[..|q|] == q;
    assert p[sep + 1..|q|] == q[sep + 1..] == Basename(q);
  }

  /** The suffix `"." + ext` adds no '/', so the last '/' stays inside `q`. */
  lemma SuffixKeepsLastSep(q: string, ext: string)
    requires Sep !in ext
    ensures LastIndexOf(q + [ExtSep] + ext, Sep) == LastIndexOf(q, Sep)
  {
    assert q + [ExtSep] + ext == q + ([ExtSep] + ext);
    LastIndexOfAppend(q, [ExtSep] + ext, Sep);
  }

  /** The '.' that starts the suffix `"." + ext` is the last '.' of the path. */
  lemma SuffixDotIsLast(q: string, ext: string)
    requires ExtSep !in ext
    ensures LastIndexOf(q + [ExtSep] + ext, ExtSep) == |q|
  {
    LastIndexOfAppend(q + [ExtSep], ext, ExtSep);
    assert (q + [ExtSep])[|q|] == ExtSep;
  }
}
