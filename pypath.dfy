/** The parts of Python's `pathlib.PurePosixPath` the model uses: `name` and `stem`. */
module PyPath {
  import opened PyStr

  /**
   * `PurePosixPath(p).name`: the text after the last `/`. This agrees with
   * `pathlib` for every path whose last component is neither empty nor `.`,
   * which holds for every path ending in `.pdf`, the only ones the model names.
   */
  function BaseName(p: string): string {
    if p == [] || p[|p| - 1] == '/' then [] else BaseName(p[..|p| - 1]) + [p[|p| - 1]]
  }

  /** The name is the part of the path after its last `/`: a suffix holding no `/`, preceded by one unless it is all of the path. */
  lemma {:induction false} BaseNameIsLastComponent(p: string)
    ensures var r := BaseName(p);
      EndsWith(p, r) && (forall i :: 0 <= i < |r| ==> r[i] != '/') && (|r| < |p| ==> p[|p| - |r| - 1] == '/')
  {
    if p != [] && p[|p| - 1] != '/' {
      var q := p[..|p| - 1];
      BaseNameIsLastComponent(q);
      var r := BaseName(p);
      assert r == BaseName(q) + [p[|p| - 1]];
      assert p == q + [p[|p| - 1]];
    }
  }

  /** The position of the last `c` in `s`, or -1, like `str.rfind`. */
  function LastIndexOf(s: string, c: char): (r: int)
    ensures -1 <= r < |s|
  {
    if s == [] then -1 else if s[|s| - 1] == c then |s| - 1 else LastIndexOf(s[..|s| - 1], c)
  }

  /** `LastIndexOf` finds `c` at its result, and no `c` after it; -1 means none at all. */
  lemma {:induction false} LastIndexOfIsLast(s: string, c: char)
    ensures var r := LastIndexOf(s, c);
      (r >= 0 ==> s[r] == c) && (forall i :: r < i < |s| ==> s[i] != c)
  {
    if s != [] && s[|s| - 1] != c {
      LastIndexOfIsLast(s[..|s| - 1], c);
    }
  }

  /**
   * `PurePath.stem`: the name without its last suffix. A dot at the start of
   * the name or at its very end does not begin a suffix.
   */
  function Stem(name: string): string {
    var i := LastIndexOf(name, '.');
    if 0 < i < |name| - 1 then name[..i] else name
  }

  /** The stem of a name ending in `.pdf` in any letter case is the name without those four characters, unless nothing precedes them. */
  lemma StemOfPdfName(name: string)
    requires EndsWith(Lower(name), ".pdf")
    ensures Stem(name) == if |name| > 4 then name[..|name| - 4] else name
  {
    var n := |name|;
    assert Lower(name)[n - 4] == '.' && Lower(name)[n - 3] == 'p';
    assert Lower(name)[n - 2] == 'd' && Lower(name)[n - 1] == 'f';
    assert name[n - 4] == '.';
    assert name[n - 3] != '.' && name[n - 2] != '.' && name[n - 1] != '.';
    LastIndexOfIsLast(name, '.');
    assert LastIndexOf(name, '.') == n - 4;
  }

  /** When the last `k` characters of a path hold no `/`, its name has at least `k` characters. */
  lemma {:induction false} BaseNameCoversSuffix(p: string, k: nat)
    requires k <= |p|
    requires forall j :: |p| - k <= j < |p| ==> p[j] != '/'
    ensures |BaseName(p)| >= k
  {
    if k > 0 {
      BaseNameCoversSuffix(p[..|p| - 1], k - 1);
    }
  }

  /** Lower-casing commutes with taking a suffix. */
  lemma LowerSuffix(s: string, i: nat)
    requires i <= |s|
    ensures Lower(s[i..]) == Lower(s)[i..]
  {
  }

  /** The name of a path ending in `.pdf` in any letter case ends in `.pdf` too. */
  lemma BaseNameOfPdfPath(p: string)
    requires EndsWith(Lower(p), ".pdf")
    ensures EndsWith(Lower(BaseName(p)), ".pdf") && |BaseName(p)| >= 4
  {
    var r := BaseName(p);
    var n := |p|;
    var lp := Lower(p);
    forall j | n - 4 <= j < n ensures p[j] != '/' {
      assert lp[j] == lp[n - 4..][j - (n - 4)];
    }
    BaseNameCoversSuffix(p, 4);
    BaseNameIsLastComponent(p);
    var m := |r|;
    assert r == p[n - m..];
    LowerSuffix(p, n - m);
    assert Lower(r)[m - 4..] == lp[n - 4..];
  }
}
