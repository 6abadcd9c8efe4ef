/** POSIX path strings as `os.path` treats them: `join`, `dirname`,
    `basename` and `splitext`. */
module Paths {
  import opened Text

  /** `os.path.join(a, b)` on POSIX. */
  function Join(a: string, b: string): string
  {
    if |b| > 0 && b[0] == '/' then b
    else if a == "" || a[|a| - 1] == '/' then a + b
    else a + "/" + b
  }

  /** Index of the last `c` in `s`, or -1 (`str.rfind`). */
  function LastIndex(s: string, c: char): (r: int)
    ensures -1 <= r < |s|
    ensures r >= 0 ==> s[r] == c
    ensures forall i :: r < i < |s| ==> s[i] != c
  {
    if |s| == 0 then -1 else if s[|s| - 1] == c then |s| - 1 else LastIndex(s[..|s| - 1], c)
  }

  /** The directory part of a path: everything before its last '/'. */
  function Parent(p: string): (r: string)
    ensures |r| < |p| || p == ""
  {
    var k := LastIndex(p, '/');
    if k < 0 then "" else p[..k]
  }

  /** `os.path.basename`: everything after the last '/'. */
  function Basename(p: string): string
  {
    p[LastIndex(p, '/') + 1..]
  }

  /** A plain file or directory name: non-empty, no separator. */
  predicate IsName(n: string)
  {
    n != "" && '/' !in n
  }

  /** A directory path the walk produces: non-empty, no trailing separator. */
  predicate IsDirPath(d: string)
  {
    d != "" && d[|d| - 1] != '/'
  }

  lemma {:induction false} JoinName(d: string, n: string)
    requires IsDirPath(d) && IsName(n)
    ensures Join(d, n) == d + "/" + n
    ensures Parent(Join(d, n)) == d
    ensures Basename(Join(d, n)) == n
    ensures IsDirPath(Join(d, n))
  {
    var p := d + "/" + n;
    assert p[|d|] == '/';
    assert forall i :: |d| < i < |p| ==> p[i] == n[i - |d| - 1];
    assert LastIndex(p, '/') == |d|;
    assert p[..|d|] == d;
  }

  /** Two names joined onto the same directory give the same path only if
      they are the same name. */
  lemma JoinInjective(d: string, m: string, n: string)
    requires IsName(m) && IsName(n)
    requires Join(d, m) == Join(d, n)
    ensures m == n
  {
    var pre := if d == "" || d[|d| - 1] == '/' then d else d + "/";
    assert Join(d, m) == pre + m && Join(d, n) == pre + n;
    assert m == (pre + m)[|pre|..];
  }

  /** Different names joined onto the same directory give different paths. */
  lemma JoinDistinct(d: string, m: string, n: string)
    requires IsName(m) && IsName(n) && m != n
    ensures Join(d, m) != Join(d, n)
  {
    var pre := if d == "" || d[|d| - 1] == '/' then d else d + "/";
    assert Join(d, m) == pre + m && Join(d, n) == pre + n;
    assert (pre + m)[|pre|..] == m && (pre + n)[|pre|..] == n;
  }

  /** Some character of `p[lo..hi]` is not a dot. */
  predicate HasNonDot(p: string, lo: int, hi: int)
    requires 0 <= lo <= hi <= |p|
  {
    exists i | lo <= i < hi :: p[i] != '.'
  }

  /** `os.path.splitext`: the extension starts at the last dot of the final
      component, unless everything before that dot is a dot. */
  function SplitExt(p: string): (r: (string, string))
    ensures r.0 + r.1 == p
    ensures r.1 == "" || (r.1[0] == '.' && '.' !in r.1[1..] && '/' !in r.1)
  {
    var sepIndex := LastIndex(p, '/');
    var dotIndex := LastIndex(p, '.');
    if dotIndex > sepIndex && HasNonDot(p, sepIndex + 1, dotIndex) then
      assert forall i :: 0 <= i < |p[dotIndex..]| ==> p[dotIndex..][i] == p[dotIndex + i];
      (p[..dotIndex], p[dotIndex..])
    else
      (p, "")
  }

  /** A name without a dot has no extension. */
  lemma SplitExtNoDot(n: string)
    requires '.' !in n
    ensures SplitExt(n) == (n, "")
  {
  }

  /** The extension of `stem + "." + w` is `"." + w` when `w` has no dot and
      `stem` is not all dots. */
  lemma {:induction false} SplitExtOf(stem: string, w: string)
    requires '/' !in stem && '/' !in w && '.' !in w
    requires exists i | 0 <= i < |stem| :: stem[i] != '.'
    ensures SplitExt(stem + "." + w) == (stem, "." + w)
  {
    var p := stem + "." + w;
    assert p[|stem|] == '.';
    assert forall i :: |stem| < i < |p| ==> p[i] == w[i - |stem| - 1];
    assert LastIndex(p, '.') == |stem|;
    assert forall i :: 0 <= i < |stem| ==> p[i] == stem[i];
    assert LastIndex(p, '/') == -1;
    var i :| 0 <= i < |stem| && stem[i] != '.';
    assert p[i] != '.';
    assert p[..|stem|] == stem && p[|stem|..] == "." + w;
  }

  lemma LastIndexIs(s: string, c: char, k: int)
    requires -1 <= k < |s|
    requires k >= 0 ==> s[k] == c
    requires forall i :: k < i < |s| ==> s[i] != c
    ensures LastIndex(s, c) == k
  {
  }

  lemma LastIndexLower(p: string, c: char)
    requires c == '.' || c == '/'
    ensures LastIndex(Lower(p), c) == LastIndex(p, c)
  {
    var q := Lower(p);
    forall i | 0 <= i < |p|
      ensures q[i] == c <==> p[i] == c
    {
      LowerKeepsPunctuation(p, i);
    }
    LastIndexIs(q, c, LastIndex(p, c));
  }

  lemma HasNonDotLower(p: string, lo: int, hi: int)
    requires 0 <= lo <= hi <= |p|
    ensures HasNonDot(Lower(p), lo, hi) == HasNonDot(p, lo, hi)
  {
    var q := Lower(p);
    if HasNonDot(p, lo, hi) {
      var i :| lo <= i < hi && p[i] != '.';
      LowerKeepsPunctuation(p, i);
      assert q[i] != '.';
    }
    if HasNonDot(q, lo, hi) {
      var i :| lo <= i < hi && q[i] != '.';
      LowerKeepsPunctuation(p, i);
      assert p[i] != '.';
    }
  }

  /** Lower-casing a path lower-cases its extension and nothing else moves. */
  lemma SplitExtLower(p: string)
    ensures SplitExt(Lower(p)) == (Lower(SplitExt(p).0), Lower(SplitExt(p).1))
  {
    var q := Lower(p);
    LastIndexLower(p, '.');
    LastIndexLower(p, '/');
    var sepIndex := LastIndex(p, '/');
    var dotIndex := LastIndex(p, '.');
    if dotIndex > sepIndex {
      HasNonDotLower(p, sepIndex + 1, dotIndex);
      if HasNonDot(p, sepIndex + 1, dotIndex) {
        LowerCut(p, dotIndex);
        assert SplitExt(p) == (p[..dotIndex], p[dotIndex..]);
        assert SplitExt(q) == (q[..dotIndex], q[dotIndex..]);
        return;
      }
    }
    assert SplitExt(p) == (p, "") && SplitExt(q) == (q, "");
  }
}
