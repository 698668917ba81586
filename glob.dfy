/**
 * `fnmatch.fnmatch` for the patterns the engine uses. On POSIX the name and the pattern are
 * compared unchanged; `*` matches any run of characters (separators and newlines included) and
 * `?` matches any single character. Bracket classes never occur in the configured patterns and
 * are read as literal characters here.
 */
module Glob {

  function Matches(pat: string, s: string): bool
    decreases |pat| + |s|
  {
    if pat == [] then s == []
    else if pat[0] == '*' then Matches(pat[1..], s) || (s != [] && Matches(pat, s[1..]))
    else s != [] && (pat[0] == '?' || pat[0] == s[0]) && Matches(pat[1..], s[1..])
  }

  /** `any(fnmatch(path, pat) for pat in pats)` */
  function AnyMatch(pats: seq<string>, s: string): (r: bool)
    ensures r <==> exists i :: 0 <= i < |pats| && Matches(pats[i], s)
  {
    if pats == [] then false
    else Matches(pats[0], s) || AnyMatch(pats[1..], s)
  }

  predicate IsLiteral(lit: string) {
    '*' !in lit && '?' !in lit
  }

  /** Text without wildcards stays so when joined. */
  lemma LiteralConcat(a: string, b: string)
    requires IsLiteral(a) && IsLiteral(b)
    ensures IsLiteral(a + b)
  {
    forall i | 0 <= i < |a + b|
      ensures (a + b)[i] != '*' && (a + b)[i] != '?'
    {
      if i < |a| {
        assert (a + b)[i] == a[i];
      } else {
        assert (a + b)[i] == b[i - |a|];
      }
    }
  }

  lemma {:induction false} StarMatchesEverything(s: string)
    ensures Matches("*", s)
  {
    if s != [] {
      StarMatchesEverything(s[1..]);
    }
  }

  /** A pattern `<literal>*` matches exactly the strings that start with the literal. */
  lemma {:induction false} LiteralStarIsPrefix(lit: string, s: string)
    requires IsLiteral(lit)
    ensures Matches(lit + "*", s) <==> lit <= s
  {
    if lit == [] {
      assert lit + "*" == "*";
      StarMatchesEverything(s);
    } else {
      assert (lit + "*")[1..] == lit[1..] + "*";
      if s != [] {
        LiteralStarIsPrefix(lit[1..], s[1..]);
      }
    }
  }

  /** The stem of a pattern written as `<literal>*`. */
  predicate IsStarSuffixed(pat: string) {
    |pat| > 0 && pat[|pat| - 1] == '*' && IsLiteral(pat[..|pat| - 1])
  }

  /** For a list of `<literal>*` patterns, matching any of them is starting with any stem. */
  lemma AnyStarSuffixedIsAnyPrefix(pats: seq<string>, s: string)
    requires forall i :: 0 <= i < |pats| ==> IsStarSuffixed(pats[i])
    ensures AnyMatch(pats, s) <==> exists i :: 0 <= i < |pats| && |pats[i]| > 0 && pats[i][..|pats[i]| - 1] <= s
  {
    forall i | 0 <= i < |pats|
      ensures Matches(pats[i], s) <==> pats[i][..|pats[i]| - 1] <= s
    {
      var stem := pats[i][..|pats[i]| - 1];
      assert stem + "*" == pats[i];
      LiteralStarIsPrefix(stem, s);
    }
  }
}
