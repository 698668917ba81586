/**
 * POSIX path strings and the handful of `os.path` / `str` operations the path-translation
 * engine performs on them. Paths are plain character sequences; nothing is normalised.
 */
module PathText {

  type Path = string

  /** `os.path.join(a, b)` on POSIX: an absolute `b` replaces `a`; otherwise one separator is
      inserted unless `a` is empty or already ends in one. */
  function Join(a: Path, b: Path): (r: Path)
    ensures IsAbsolute(b) ==> r == b
    ensures !IsAbsolute(b) ==> a <= r && |r| <= |a| + 1 + |b|
    ensures |b| <= |r| && r[|r| - |b|..] == b
  {
    if IsAbsolute(b) then b
    else if a == [] || a[|a| - 1] == '/' then a + b
    else a + "/" + b
  }

  predicate IsAbsolute(p: Path) {
    |p| > 0 && p[0] == '/'
  }

  /** `os.path.basename`: everything after the last separator. */
  function Basename(p: Path): (r: Path)
    ensures '/' !in r
    ensures |r| <= |p| && r == p[|p| - |r|..]
    ensures |r| < |p| ==> p[|p| - |r| - 1] == '/'
  {
    if p == [] then []
    else if p[|p| - 1] == '/' then []
    else Basename(p[..|p| - 1]) + [p[|p| - 1]]
  }

  /** The basename of `dir + name` is `name` when `dir` ends in a separator and `name` has none. */
  lemma {:induction false} BasenameAfterSeparator(dir: Path, name: Path)
    requires |dir| > 0 && dir[|dir| - 1] == '/'
    requires '/' !in name
    ensures Basename(dir + name) == name
  {
    var p := dir + name;
    var r := Basename(p);
    assert |r| == |name|;
    assert r == p[|p| - |name|..] == name;
  }

  /** Length of the leading run of non-separator characters. */
  function SegmentLength(s: string): (n: nat)
    ensures n <= |s|
    ensures '/' !in s[..n]
    ensures n < |s| ==> s[n] == '/'
  {
    if s == [] || s[0] == '/' then 0
    else assert s[1..][..SegmentLength(s[1..])] == s[1..1 + SegmentLength(s[1..])];
         1 + SegmentLength(s[1..])
  }

  /** `s.split("/", 1)`. */
  function SplitOnce(s: string): (r: seq<string>)
    ensures 1 <= |r| <= 2
    ensures |r| == 1 <==> '/' !in s
    ensures |r| == 1 ==> r[0] == s
    ensures |r| == 2 ==> r[0] + "/" + r[1] == s && '/' !in r[0]
    ensures |r| == 2 ==> r[1] == s[SegmentLength(s) + 1..]
  {
    var n := SegmentLength(s);
    assert s[..|s|] == s;
    if n == |s| then [s]
    else
      assert s == s[..n] + "/" + s[n + 1..];
      [s[..n], s[n + 1..]]
  }

  /** `s.lstrip("/")`. */
  function LstripSep(s: string): (r: string)
    ensures |r| <= |s| && r == s[|s| - |r|..]
    ensures r == [] || r[0] != '/'
    ensures forall i :: 0 <= i < |s| - |r| ==> s[i] == '/'
  {
    if s != [] && s[0] == '/' then LstripSep(s[1..]) else s
  }

  /** The longest prefix of `s` without a newline: what a regular-expression `.*` consumes. */
  function UpToNewline(s: string): (r: string)
    ensures r <= s && '\n' !in r
    ensures |r| == |s| || s[|r|] == '\n'
  {
    if s == [] || s[0] == '\n' then []
    else [s[0]] + UpToNewline(s[1..])
  }

  /** Two strings that differ at a position both reach are never prefixes of the same path. */
  lemma DivergingPrefixes(a: string, b: string, p: string, k: nat)
    requires k < |a| && k < |b| && a[k] != b[k]
    ensures !(a <= p && b <= p)
  {
  }
}
