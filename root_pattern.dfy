/**
 * The package-path pattern `(R1|R2|...)/?([^/]+)(/.*)` that both versions of the tool build from
 * their list of package roots and apply with `re.match` (anchored at the start, not at the end).
 * The roots contain no regular-expression syntax except `.`, which matches any character but a
 * newline. The alternation is tried in list order and backtracks, so the first root for which the
 * whole pattern fits is the one that matches.
 */
module RootPattern {
  import opened Wrappers
  import opened PathText

  /** The three capture groups of a successful match: the matched root, the package name and the
      remainder (which starts with the separator that follows the name). */
  datatype Groups = Groups(root: string, name: string, rest: string)

  predicate CharFits(rc: char, c: char) {
    if rc == '.' then c != '\n' else rc == c
  }

  /** The alternative `root` matches at the start of `path`. */
  predicate RootFits(root: string, path: string) {
    |root| <= |path| && forall i :: 0 <= i < |root| ==> CharFits(root[i], path[i])
  }

  lemma RootFitsItself(root: string, more: string)
    ensures RootFits(root, root + more)
  {
  }

  /** A `.` in a root stands for any character but a newline. */
  lemma DotFitsAnyCharacter(before: string, after: string, c: char, more: string)
    requires c != '\n'
    ensures RootFits(before + "." + after, before + [c] + after + more)
  {
    var root := before + "." + after;
    var path := before + [c] + after + more;
    forall i | 0 <= i < |root|
      ensures CharFits(root[i], path[i])
    {
      if i > |before| {
        assert root[i] == after[i - |before| - 1] == path[i];
      }
    }
  }

  /** `/?([^/]+)(/.*)` anchored at the start of `s`: the optional separator is taken when present
      (backtracking over it cannot help, since `[^/]+` cannot start with a separator), the name is
      the whole leading run of non-separators and must be followed by a separator, and `.*` stops
      at the first newline. */
  function Tail(s: string): (r: Option<(string, string)>)
    ensures r.Some? ==>
      && r.value.0 != [] && '/' !in r.value.0
      && r.value.1 != [] && r.value.1[0] == '/' && '\n' !in r.value.1
  {
    var off := if s != [] && s[0] == '/' then 1 else 0;
    var t := s[off..];
    var n := SegmentLength(t);
    if n == 0 || n == |t| then None
    else Some((t[..n], UpToNewline(t[n..])))
  }

  /** The name and the remainder are consecutive text of `s`, after the optional separator, and
      the remainder runs to the end of `s` or to its first newline. */
  lemma TailIsInfix(s: string)
    requires Tail(s).Some?
    ensures var off := if s != [] && s[0] == '/' then 1 else 0;
            var name := Tail(s).value.0;
            var rest := Tail(s).value.1;
            && off + |name| + |rest| <= |s|
            && s[off..off + |name| + |rest|] == name + rest
            && (off + |name| + |rest| == |s| || s[off + |name| + |rest|] == '\n')
  {
    var off := if s != [] && s[0] == '/' then 1 else 0;
    var t := s[off..];
    var n := SegmentLength(t);
    var rest := UpToNewline(t[n..]);
    assert t[n..] == s[off + n..];
    assert t[..n] + rest == t[..n + |rest|];
  }

  /** Every string of the shape `sep name / more` is accepted, with exactly that name. */
  lemma TailOfShape(sep: string, name: string, more: string)
    requires sep == "" || sep == "/"
    requires name != [] && '/' !in name
    ensures Tail(sep + name + "/" + more) == Some((name, "/" + UpToNewline(more)))
  {
    var t := name + "/" + more;
    assert sep + name + "/" + more == sep + t;
    assert name[0] in name;
    TailAfterSep(sep, t);
    TailOfSegment(name, more);
  }

  /** The optional leading separator is skipped. */
  lemma TailAfterSep(sep: string, t: string)
    requires sep == "" || sep == "/"
    requires t != [] && t[0] != '/'
    ensures Tail(sep + t) == Tail(t)
  {
    if sep == "/" {
      assert (sep + t)[1..] == t;
    } else {
      assert sep + t == t;
    }
  }

  /** A segment followed by a separator is the name; the rest is the remainder. */
  lemma TailOfSegment(name: string, more: string)
    requires name != [] && '/' !in name
    ensures Tail(name + "/" + more) == Some((name, "/" + UpToNewline(more)))
  {
    var t := name + "/" + more;
    assert name[0] in name;
    assert t[0] != '/';
    assert t[0..] == t;
    SegmentLengthBeforeSep(name, more);
    assert t[..|name|] == name;
    assert t[|name|..] == "/" + more;
    assert ("/" + more)[1..] == more;
  }

  lemma {:induction false} SegmentLengthBeforeSep(name: string, more: string)
    requires '/' !in name
    ensures SegmentLength(name + "/" + more) == |name|
  {
    if name != [] {
      assert (name + "/" + more)[1..] == name[1..] + "/" + more;
      SegmentLengthBeforeSep(name[1..], more);
    }
  }

  predicate Fits(root: string, path: string) {
    RootFits(root, path) && Tail(path[|root|..]).Some?
  }

  /** Which alternatives the whole pattern fits with. */
  function FitsEach(roots: seq<string>, path: string): (r: seq<bool>)
    ensures |r| == |roots|
    ensures forall j :: 0 <= j < |roots| ==> r[j] == Fits(roots[j], path)
  {
    seq(|roots|, j requires 0 <= j < |roots| => Fits(roots[j], path))
  }

  /** The first fitting alternative at or after `from`: the one the engine settles on. */
  function FirstFit(fits: seq<bool>, from: nat): (k: Option<nat>)
    ensures k.Some? ==> from <= k.value < |fits| && fits[k.value]
    ensures k.Some? ==> forall j :: from <= j < k.value ==> !fits[j]
    ensures k.None? <==> forall j :: from <= j < |fits| ==> !fits[j]
    decreases |fits| - from
  {
    if from >= |fits| then None
    else if fits[from] then Some(from)
    else FirstFit(fits, from + 1)
  }

  /** Some alternative of the pattern fits `path`. */
  predicate SomeRootFits(roots: seq<string>, path: string) {
    exists k :: 0 <= k < |roots| && Fits(roots[k], path)
  }

  /** Alternative `k` fits `path` and no earlier one does: the one the engine settles on. */
  predicate IsFirstFit(roots: seq<string>, path: string, k: int) {
    0 <= k < |roots| && Fits(roots[k], path) && forall j :: 0 <= j < k ==> !Fits(roots[j], path)
  }

  /** `re.match(pattern, path)` and its groups. */
  function Match(roots: seq<string>, path: string): (r: Option<Groups>)
    ensures r.None? <==> !SomeRootFits(roots, path)
    ensures r.Some? ==>
      && r.value.root <= path
      && Tail(path[|r.value.root|..]) == Some((r.value.name, r.value.rest))
      && exists k :: IsFirstFit(roots, path, k) && |roots[k]| == |r.value.root|
  {
    match FirstFit(FitsEach(roots, path), 0)
    case None => None
    case Some(k) =>
      var root := roots[k];
      var tail := Tail(path[|root|..]).value;
      Some(Groups(path[..|root|], tail.0, tail.1))
  }

  /** A path laid out as `root sep name / more` is split at the first root (in list order) for
      which this shape exists: nothing earlier in the list fits. */
  lemma MatchOfShape(roots: seq<string>, k: nat, path: string, sep: string, name: string, more: string)
    requires k < |roots|
    requires sep == "" || sep == "/"
    requires name != [] && '/' !in name
    requires path == roots[k] + sep + name + "/" + more
    requires forall j :: 0 <= j < k ==> !Fits(roots[j], path)
    ensures Match(roots, path) == Some(Groups(roots[k], name, "/" + UpToNewline(more)))
  {
    var root := roots[k];
    var after := sep + name + "/" + more;
    assert path == root + after;
    RootFitsItself(root, after);
    assert path[|root|..] == after && path[..|root|] == root;
    MatchOfFit(roots, k, path, sep, name, more);
  }

  /** The same for a path whose start the root only fits (through its `.` wildcards): the
      matched root is the text of the path it covers. */
  lemma MatchOfFit(roots: seq<string>, k: nat, path: string, sep: string, name: string, more: string)
    requires k < |roots| && RootFits(roots[k], path)
    requires sep == "" || sep == "/"
    requires name != [] && '/' !in name
    requires path[|roots[k]|..] == sep + name + "/" + more
    requires forall j :: 0 <= j < k ==> !Fits(roots[j], path)
    ensures Match(roots, path) == Some(Groups(path[..|roots[k]|], name, "/" + UpToNewline(more)))
  {
    TailOfShape(sep, name, more);
    FirstFitIsLeast(FitsEach(roots, path), k, 0);
  }

  /** The search settles on `k` when it fits and nothing between `from` and `k` does. */
  lemma {:induction false} FirstFitIsLeast(fits: seq<bool>, k: nat, from: nat)
    requires from <= k < |fits| && fits[k]
    requires forall j :: from <= j < k ==> !fits[j]
    ensures FirstFit(fits, from) == Some(k)
    decreases k - from
  {
    if from < k {
      FirstFitIsLeast(fits, k, from + 1);
    }
  }

  /** A root followed by a last segment (no separator after it) does not fit that root. */
  lemma LastSegmentDoesNotFit(root: string, sep: string, name: string)
    requires sep == "" || sep == "/"
    requires '/' !in name
    ensures !Fits(root, root + sep + name)
  {
    var path := root + sep + name;
    assert path[|root|..] == sep + name;
    var s := sep + name;
    var off := if s != [] && s[0] == '/' then 1 else 0;
    var t := s[off..];
    assert '/' !in t by {
      if sep == "/" {
        assert t == name;
      } else if name != [] {
        assert t == name;
      }
    }
    var n := SegmentLength(t);
    assert n == |t|;
  }
}
