/**
 * The repository side of the tool (`python/confgen/getrepos.py`): reading a clone's package
 * name from the `name = "..."` line of its `package.py`, building the map from package names to
 * clones, and the clone URL that carries the access token together with the form of it that is
 * logged.
 */
module GetRepos {
  import opened Wrappers
  import opened PathText

  /** A local clone: its working directory and the lines of `<working dir>/package.py` as
      `readlines()` returns them, or `None` when that file does not exist. */
  datatype Repo = Repo(workingDir: Path, packageFile: Option<seq<string>>)

  /** `\s` in a Python 3 `str` pattern: the characters `str.isspace()` accepts. */
  predicate IsSpace(c: char) {
    var n := c as int;
    || 0x09 <= n <= 0x0D || 0x1C <= n <= 0x20 || n == 0x85 || n == 0xA0 || n == 0x1680
    || 0x2000 <= n <= 0x200A || n == 0x2028 || n == 0x2029 || n == 0x202F || n == 0x205F
    || n == 0x3000
  }

  predicate AllSpace(s: string) {
    forall i :: 0 <= i < |s| ==> IsSpace(s[i])
  }

  predicate IsQuote(c: char) {
    c == '"' || c == '\''
  }

  /** Length of the run of whitespace a greedy `\s*` takes at the start of `s`. */
  function SpaceRun(s: string): (n: nat)
    ensures n <= |s|
    ensures forall i :: 0 <= i < n ==> IsSpace(s[i])
    ensures n < |s| ==> !IsSpace(s[n])
  {
    if s != [] && IsSpace(s[0]) then 1 + SpaceRun(s[1..]) else 0
  }

  lemma {:induction false} SpaceRunOver(ws: string, rest: string)
    requires AllSpace(ws)
    requires rest == [] || !IsSpace(rest[0])
    ensures SpaceRun(ws + rest) == |ws|
  {
    if ws != [] {
      assert (ws + rest)[1..] == ws[1..] + rest;
      SpaceRunOver(ws[1..], rest);
    }
  }

  /** The line `name <ws> = <ws> <quote> value <quote>`, with an optional line end. */
  function NameLine(ws1: string, ws2: string, q1: char, value: string, q2: char, end: string): string {
    "name" + (ws1 + ("=" + (ws2 + ([q1] + (value + ([q2] + end))))))
  }

  predicate WellFormed(ws1: string, ws2: string, q1: char, value: string, q2: char, end: string) {
    AllSpace(ws1) && AllSpace(ws2) && IsQuote(q1) && IsQuote(q2) && '\n' !in value
    && (end == "" || end == "\n")
  }

  /** `\s*=` at the start of `s`: what follows the `=`. */
  function AfterEquals(s: string): (r: Option<string>)
    ensures r.Some? ==> |r.value| < |s|
  {
    var n := SpaceRun(s);
    if n == |s| || s[n] != '=' then None else Some(s[n + 1..])
  }

  /** `\s*["']` at the start of `s`: what follows the quote. */
  function AfterQuote(s: string): (r: Option<string>)
    ensures r.Some? ==> |r.value| < |s|
  {
    var n := SpaceRun(s);
    if n == |s| || !IsQuote(s[n]) then None else Some(s[n + 1..])
  }

  /** `name\s*=\s*["']` at the start of the line: the text after the opening quote. Neither `=`
      nor a quote is whitespace, so each `\s*` takes the whole run of whitespace. */
  function AfterOpening(line: string): (r: Option<string>)
    ensures r.Some? ==> "name" <= line && |r.value| < |line|
  {
    if !("name" <= line) then None
    else match AfterEquals(line[4..])
      case None => None
      case Some(t) => AfterQuote(t)
  }

  /** `(.*)["']$` on the text after the opening quote: `$` matches at the end or just before a
      final newline, and `.` does not match a newline, so the value is everything up to the last
      character before the optional newline, which must be a quote. */
  function QuotedValue(rest: string): (r: Option<string>)
    ensures r.Some? ==> '\n' !in r.value
    ensures r.Some? ==> exists q :: IsQuote(q) && (rest == r.value + [q] || rest == r.value + [q] + "\n")
  {
    var body := if rest != [] && rest[|rest| - 1] == '\n' then rest[..|rest| - 1] else rest;
    if body == [] || !IsQuote(body[|body| - 1]) || '\n' in body[..|body| - 1] then None
    else
      assert body == body[..|body| - 1] + [body[|body| - 1]];
      Some(body[..|body| - 1])
  }

  /** `re.match(r"name\s*=\s*[\"'](.*)[\"']$", line)` and its group 1. */
  function MatchNameLine(line: string): (r: Option<string>)
    ensures r.Some? ==> "name" <= line && '\n' !in r.value
  {
    match AfterOpening(line)
    case None => None
    case Some(rest) => QuotedValue(rest)
  }

  lemma AfterEqualsOf(ws: string, t: string)
    requires AllSpace(ws)
    ensures AfterEquals(ws + ("=" + t)) == Some(t)
  {
    SpaceRunOver(ws, "=" + t);
    assert (ws + ("=" + t))[|ws| + 1..] == t;
  }

  lemma AfterQuoteOf(ws: string, q: char, t: string)
    requires AllSpace(ws) && IsQuote(q)
    ensures AfterQuote(ws + ([q] + t)) == Some(t)
  {
    SpaceRunOver(ws, [q] + t);
    assert (ws + ([q] + t))[|ws| + 1..] == t;
  }

  lemma AfterOpeningOf(ws1: string, ws2: string, q1: char, rest: string)
    requires AllSpace(ws1) && AllSpace(ws2) && IsQuote(q1)
    ensures AfterOpening("name" + (ws1 + ("=" + (ws2 + ([q1] + rest))))) == Some(rest)
  {
    var tail := ws1 + ("=" + (ws2 + ([q1] + rest)));
    assert ("name" + tail)[4..] == tail;
    AfterEqualsOf(ws1, ws2 + ([q1] + rest));
    AfterQuoteOf(ws2, q1, rest);
  }

  lemma QuotedValueOf(value: string, q2: char, end: string)
    requires IsQuote(q2) && '\n' !in value && (end == "" || end == "\n")
    ensures QuotedValue(value + [q2] + end) == Some(value)
  {
    var rest := value + [q2] + end;
    if end == "\n" {
      assert rest[..|rest| - 1] == value + [q2];
    } else {
      assert rest == value + [q2];
    }
    assert (value + [q2])[..|value|] == value;
  }

  /** Every well-formed name line yields its value. */
  lemma NameLineRoundTrip(ws1: string, ws2: string, q1: char, value: string, q2: char, end: string)
    requires WellFormed(ws1, ws2, q1, value, q2, end)
    ensures MatchNameLine(NameLine(ws1, ws2, q1, value, q2, end)) == Some(value)
  {
    AfterOpeningOf(ws1, ws2, q1, value + ([q2] + end));
    assert value + ([q2] + end) == value + [q2] + end;
    QuotedValueOf(value, q2, end);
  }

  /** Only well-formed name lines match, and each yields its own value. */
  lemma MatchedLineIsWellFormed(line: string)
    requires MatchNameLine(line).Some?
    ensures exists ws1, ws2, q1, q2, end ::
      && WellFormed(ws1, ws2, q1, MatchNameLine(line).value, q2, end)
      && line == NameLine(ws1, ws2, q1, MatchNameLine(line).value, q2, end)
  {
    var value := MatchNameLine(line).value;
    var t := AfterEquals(line[4..]).value;
    var rest := AfterQuote(t).value;
    assert QuotedValue(rest) == Some(value);
    var ws1, ws2, q1 := OpeningParts(line[4..], t, rest);
    var q2, end := ClosingParts(rest, value);
    LineOfParts(line, ws1, ws2, q1, value, q2, end, rest);
    assert WellFormed(ws1, ws2, q1, value, q2, end);
  }

  lemma LineOfParts(line: string, ws1: string, ws2: string, q1: char, value: string, q2: char, end: string,
                    rest: string)
    requires "name" <= line
    requires line[4..] == ws1 + ("=" + (ws2 + ([q1] + rest)))
    requires rest == value + ([q2] + end)
    ensures line == NameLine(ws1, ws2, q1, value, q2, end)
  {
    assert line == "name" + line[4..];
  }

  /** The closing quote and line end `QuotedValue` removes. */
  lemma ClosingParts(rest: string, value: string) returns (q2: char, end: string)
    requires QuotedValue(rest) == Some(value)
    ensures IsQuote(q2) && (end == "" || end == "\n")
    ensures rest == value + ([q2] + end)
  {
    q2 :| IsQuote(q2) && (rest == value + [q2] || rest == value + [q2] + "\n");
    end := if rest == value + [q2] then "" else "\n";
  }

  /** The whitespace and the quote `AfterEquals` and `AfterQuote` skip. */
  lemma OpeningParts(s: string, t: string, rest: string) returns (ws1: string, ws2: string, q1: char)
    requires AfterEquals(s) == Some(t) && AfterQuote(t) == Some(rest)
    ensures AllSpace(ws1) && AllSpace(ws2) && IsQuote(q1)
    ensures s == ws1 + ("=" + (ws2 + ([q1] + rest)))
  {
    ws1 := EqualsParts(s, t);
    ws2, q1 := QuoteParts(t, rest);
  }

  lemma EqualsParts(s: string, t: string) returns (ws: string)
    requires AfterEquals(s) == Some(t)
    ensures AllSpace(ws) && s == ws + ("=" + t)
  {
    var n := SpaceRun(s);
    ws := s[..n];
    assert s[n..] == "=" + t;
    assert s == s[..n] + s[n..];
  }

  lemma QuoteParts(t: string, rest: string) returns (ws: string, q: char)
    requires AfterQuote(t) == Some(rest)
    ensures AllSpace(ws) && IsQuote(q) && t == ws + ([q] + rest)
  {
    var m := SpaceRun(t);
    ws := t[..m];
    q := t[m];
    assert t[m..] == [q] + rest;
    assert t == t[..m] + t[m..];
  }

  lemma IndentedLineDoesNotMatch(c: char, rest: string)
    requires IsSpace(c)
    ensures MatchNameLine([c] + rest).None?
  {
    assert ([c] + rest)[0] == c;
  }

  /** `re.match` is anchored: a longer key that merely starts with `name` does not match. */
  lemma NamespaceLineDoesNotMatch(rest: string)
    ensures MatchNameLine("namespace" + rest).None?
  {
    var line := "namespace" + rest;
    assert line[4..] == "space" + rest;
    assert SpaceRun("space" + rest) == 0;
  }

  /** A line pattern with its captured group. */
  type LineMatcher = string -> Option<string>

  /** The value of the first line that `m` matches, if any: the loop of `get_package_name`
      over the file's lines, which returns at the first match. */
  function FirstMatch(m: LineMatcher, lines: seq<string>): (r: Option<string>)
    ensures r.None? <==> forall i :: 0 <= i < |lines| ==> m(lines[i]).None?
    ensures r.Some? ==> exists i :: 0 <= i < |lines| && m(lines[i]) == r
  {
    if lines == [] then None
    else if m(lines[0]).Some? then m(lines[0])
    else
      var r := FirstMatch(m, lines[1..]);
      assert forall i :: 1 <= i < |lines| ==> lines[i] == lines[1..][i - 1];
      r
  }

  /** `get_package_name(repo)`. */
  function GetPackageName(repo: Repo): (r: Option<string>)
    ensures repo.packageFile.None? ==> r.None?
    ensures repo.packageFile.Some? ==> r == FirstMatch(MatchNameLine, repo.packageFile.value)
  {
    match repo.packageFile
    case None => None
    case Some(lines) => FirstMatch(MatchNameLine, lines)
  }

  /** A line after the first matching one cannot change the result. */
  lemma {:induction false} LaterLinesAreIgnored(m: LineMatcher, lines: seq<string>, more: seq<string>)
    requires FirstMatch(m, lines).Some?
    ensures FirstMatch(m, lines + more) == FirstMatch(m, lines)
  {
    var all := lines + more;
    assert all[0] == lines[0];
    if m(lines[0]).None? {
      assert all[1..] == lines[1..] + more;
      LaterLinesAreIgnored(m, lines[1..], more);
    }
  }

  /** The result is the value of the first line that matches. */
  lemma {:induction false} FirstMatchIsFirst(m: LineMatcher, lines: seq<string>, i: nat)
    requires i < |lines| && m(lines[i]).Some?
    requires forall j :: 0 <= j < i ==> m(lines[j]).None?
    ensures FirstMatch(m, lines) == m(lines[i])
  {
    if i > 0 {
      assert m(lines[0]).None?;
      assert lines[1..][i - 1] == lines[i];
      assert forall j :: 0 <= j < i - 1 ==> lines[1..][j] == lines[j + 1];
      FirstMatchIsFirst(m, lines[1..], i - 1);
    }
  }

  /** When the first line does not match and the second does, the second decides. */
  lemma SecondLineDecides(m: LineMatcher, first: string, second: string, more: seq<string>)
    requires m(first).None? && m(second).Some?
    ensures FirstMatch(m, [first, second] + more) == m(second)
  {
    var lines := [first, second] + more;
    assert lines[0] == first && lines[1] == second;
    FirstMatchIsFirst(m, lines, 1);
  }

  lemma ConfgenLineShape()
    ensures "name = \"confgen\"\n" == NameLine(" ", " ", '"', "confgen", '"', "\n")
  {
    var line := "name = \"confgen\"\n";
    var built := NameLine(" ", " ", '"', "confgen", '"', "\n");
    assert |built| == |line|;
    assert forall i :: 0 <= i < |line| ==> built[i] == line[i];
  }

  /** Line 2 of this repository's own manifest. */
  lemma ConfgenLineMatches()
    ensures MatchNameLine("name = \"confgen\"\n") == Some("confgen")
  {
    ConfgenLineShape();
    assert AllSpace(" ");
    NameLineRoundTrip(" ", " ", '"', "confgen", '"', "\n");
  }

  lemma BlankLineDoesNotMatch()
    ensures MatchNameLine("\n").None?
  {
    assert !("name" <= "\n");
  }

  /** This repository's own manifest: an empty line, then `name = "confgen"`. */
  lemma OwnManifestIsConfgen(workingDir: Path, more: seq<string>)
    ensures GetPackageName(Repo(workingDir, Some(["\n", "name = \"confgen\"\n"] + more))) == Some("confgen")
  {
    ConfgenLineMatches();
    BlankLineDoesNotMatch();
    SecondLineDecides(MatchNameLine, "\n", "name = \"confgen\"\n", more);
  }

  /** The package name of a clone, as a parameter: the map below is built the same way for any
      name function, and `get_package_repo_mapping` uses `GetPackageName`. */
  type NameOf = Repo -> Option<string>

  /** The position of the last repository whose package name is `k`. */
  function LastDeclaring(nameOf: NameOf, repos: seq<Repo>, k: string): (r: Option<nat>)
    ensures r.Some? ==> r.value < |repos| && nameOf(repos[r.value]) == Some(k)
    ensures r.Some? ==> forall j :: r.value < j < |repos| ==> nameOf(repos[j]) != Some(k)
    ensures r.None? <==> forall j :: 0 <= j < |repos| ==> nameOf(repos[j]) != Some(k)
  {
    if repos == [] then None
    else if nameOf(repos[|repos| - 1]) == Some(k) then Some(|repos| - 1)
    else
      var r := LastDeclaring(nameOf, repos[..|repos| - 1], k);
      assert forall j :: 0 <= j < |repos| - 1 ==> repos[..|repos| - 1][j] == repos[j];
      r
  }

  /** The map `get_package_repo_mapping(repos)` builds: each repository in turn, a name that is
      `None` or empty skipped, a later repository overwriting an earlier one with the same name. */
  function PackageRepoMapping(nameOf: NameOf, repos: seq<Repo>): map<string, Repo> {
    if repos == [] then map[]
    else
      var m := PackageRepoMapping(nameOf, repos[..|repos| - 1]);
      var last := repos[|repos| - 1];
      match nameOf(last)
      case Some(name) => if name != "" then m[name := last] else m
      case None => m
  }

  /** The keys are the non-empty package names, and each maps to the last repository that
      declares it. */
  lemma {:induction false} MappingIsLastWriteWins(nameOf: NameOf, repos: seq<Repo>, k: string)
    ensures k in PackageRepoMapping(nameOf, repos) <==> k != "" && LastDeclaring(nameOf, repos, k).Some?
    ensures k in PackageRepoMapping(nameOf, repos) ==>
      PackageRepoMapping(nameOf, repos)[k] == repos[LastDeclaring(nameOf, repos, k).value]
  {
    if repos != [] {
      var init := repos[..|repos| - 1];
      MappingIsLastWriteWins(nameOf, init, k);
      if nameOf(repos[|repos| - 1]) != Some(k) {
        assert forall j :: 0 <= j < |init| ==> init[j] == repos[j];
        if LastDeclaring(nameOf, init, k).Some? {
          assert LastDeclaring(nameOf, repos, k) == LastDeclaring(nameOf, init, k);
        }
      }
    }
  }

  /** Every repository in the map declares the name it is filed under. */
  lemma MappedRepoDeclaresItsKey(nameOf: NameOf, repos: seq<Repo>, k: string)
    requires k in PackageRepoMapping(nameOf, repos)
    ensures nameOf(PackageRepoMapping(nameOf, repos)[k]) == Some(k)
  {
    MappingIsLastWriteWins(nameOf, repos, k);
  }

  /** `get_package_repo_mapping(repos)` for a given list of clones. */
  method GetPackageRepoMapping(repos: seq<Repo>) returns (mapping: map<string, Repo>)
    ensures mapping == PackageRepoMapping(GetPackageName, repos)
  {
    mapping := map[];
    for i := 0 to |repos|
      invariant mapping == PackageRepoMapping(GetPackageName, repos[..i])
    {
      assert repos[..i + 1][..i] == repos[..i];
      var packageName := GetPackageName(repos[i]);
      if packageName.Some? && packageName.value != "" {
        mapping := mapping[packageName.value := repos[i]];
      }
    }
    assert repos[..|repos|] == repos;
  }

  const Scheme: string := "https://"

  /** The text `re.sub` puts after each scheme: the token (formatted with `%s`) and the
      basic-auth user. */
  function Credential(token: string): string {
    token + ":x-oauth-basic@"
  }

  /** `re.sub("(https://)", r"\1<token>:x-oauth-basic@", url)`: every `https://`, scanned left to
      right, gets the credential inserted after it. */
  function CloneUrl(token: string, url: string): string
    decreases |url|
  {
    if Scheme <= url then Scheme + Credential(token) + CloneUrl(token, url[|Scheme|..])
    else if url == [] then []
    else [url[0]] + CloneUrl(token, url[1..])
  }

  /** Removes the credential after every `https://`: the inverse of `CloneUrl`. */
  function Strip(token: string, s: string): string
    decreases |s|
  {
    if Scheme + Credential(token) <= s then Scheme + Strip(token, s[|Scheme + Credential(token)|..])
    else if s == [] then []
    else [s[0]] + Strip(token, s[1..])
  }

  /** A prefix without an `h` lies before the first insertion, so it is text of the original. */
  lemma {:induction false} PrefixWithoutHIsOriginal(token: string, p: string, url: string)
    ensures 'h' !in p && p <= CloneUrl(token, url) ==> p <= url
  {
    if p != [] && 'h' !in p && p <= CloneUrl(token, url) {
      assert p[0] == CloneUrl(token, url)[0];
      if !(Scheme <= url) && url != [] {
        PrefixWithoutHIsOriginal(token, p[1..], url[1..]);
      }
    }
  }

  lemma PrefixOfCons(h: char, t: string, x: char, s: string)
    ensures [h] + t <= [x] + s <==> h == x && t <= s
  {
    if h == x && t <= s {
      assert ([h] + t)[1..] == t;
    }
    if [h] + t <= [x] + s {
      assert ([h] + t)[0] == ([x] + s)[0];
      assert forall i :: 0 <= i < |t| ==> t[i] == ([h] + t)[i + 1];
    }
  }

  /** The rewrite starts with a scheme exactly when the original does. */
  lemma SchemeStartIsPreserved(token: string, url: string)
    ensures Scheme <= CloneUrl(token, url) <==> Scheme <= url
  {
    var c := CloneUrl(token, url);
    if !(Scheme <= url) && url != [] {
      var b := CloneUrl(token, url[1..]);
      assert Scheme == ['h'] + "ttps://";
      assert c == [url[0]] + b;
      PrefixOfCons('h', "ttps://", url[0], b);
      assert url == [url[0]] + url[1..];
      PrefixOfCons('h', "ttps://", url[0], url[1..]);
      PrefixWithoutHIsOriginal(token, "ttps://", url[1..]);
    }
  }

  /** Rewriting then stripping gives the original URL back: the rewrite only inserts the
      credential. */
  lemma {:induction false} StripUndoesCloneUrl(token: string, url: string)
    ensures Strip(token, CloneUrl(token, url)) == url
    decreases |url|
  {
    var c := CloneUrl(token, url);
    var cred := Scheme + Credential(token);
    if Scheme <= url {
      var rest := url[|Scheme|..];
      assert c == cred + CloneUrl(token, rest);
      assert c[|cred|..] == CloneUrl(token, rest);
      StripUndoesCloneUrl(token, rest);
      assert url == Scheme + rest;
    } else if url != [] {
      assert c == [url[0]] + CloneUrl(token, url[1..]);
      SchemeStartIsPreserved(token, url);
      assert Scheme <= cred;
      assert c[1..] == CloneUrl(token, url[1..]);
      StripUndoesCloneUrl(token, url[1..]);
    }
  }

  /** Where `s.rsplit("@", 1)[-1]` starts: just after the last `@`, or 0 when there is none. */
  function LastAtEnd(s: string): (n: nat)
    ensures n <= |s|
    ensures forall i :: n <= i < |s| ==> s[i] != '@'
    ensures n > 0 ==> s[n - 1] == '@'
  {
    if s == [] then 0
    else if s[|s| - 1] == '@' then |s|
    else LastAtEnd(s[..|s| - 1])
  }

  /** `s.rsplit("@", 1)[-1]`: the text after the last `@`, or all of `s` when it has none. */
  function LoggedUrl(s: string): (r: string)
    ensures '@' !in r
  {
    s[LastAtEnd(s)..]
  }

  lemma {:induction false} LastAtEndOfConcat(a: string, b: string)
    ensures LastAtEnd(a + b) == if '@' in b then |a| + LastAtEnd(b) else LastAtEnd(a)
    decreases |b|
  {
    if b == [] {
      assert a + b == a;
    } else {
      var init := b[..|b| - 1];
      assert (a + b)[..|a + b| - 1] == a + init;
      LastAtEndOfConcat(a, init);
      if b[|b| - 1] != '@' && '@' in b {
        var i :| 0 <= i < |b| && b[i] == '@';
        assert init[i] == '@';
      }
    }
  }

  /** The rewrite changes nothing, or it inserted a credential and with it an `@`. */
  lemma {:induction false} CloneUrlUnchangedOrHasAt(token: string, url: string)
    ensures CloneUrl(token, url) == url || '@' in CloneUrl(token, url)
    decreases |url|
  {
    var c := CloneUrl(token, url);
    if Scheme <= url {
      assert c[|Scheme| + |token| + 14] == '@';
    } else if url != [] {
      var b := CloneUrl(token, url[1..]);
      assert c == [url[0]] + b;
      CloneUrlUnchangedOrHasAt(token, url[1..]);
      if '@' in b {
        var i :| 0 <= i < |b| && b[i] == '@';
        assert c[i + 1] == '@';
      } else {
        assert [url[0]] + url[1..] == url;
      }
    }
  }

  /** The logged URL is a tail of the original URL, without any `@`: the inserted credential
      never reaches the log. */
  lemma {:induction false} LoggedUrlHidesCredential(token: string, url: string)
    ensures var logged := LoggedUrl(CloneUrl(token, url));
            '@' !in logged && |logged| <= |url| && logged == url[|url| - |logged|..]
    decreases |url|
  {
    if Scheme <= url {
      LoggedUrlHidesCredential(token, url[|Scheme|..]);
      LoggedAfterScheme(token, url);
    } else if url != [] {
      LoggedUrlHidesCredential(token, url[1..]);
      LoggedAfterFirst(token, url);
    }
  }

  /** At a scheme, the log shows what the rest of the URL logs, or the whole rest. */
  lemma LoggedAfterScheme(token: string, url: string)
    requires Scheme <= url
    requires var logged := LoggedUrl(CloneUrl(token, url[|Scheme|..]));
             |logged| <= |url[|Scheme|..]| && logged == url[|Scheme|..][|url[|Scheme|..]| - |logged|..]
    ensures var logged := LoggedUrl(CloneUrl(token, url));
            |logged| <= |url| && logged == url[|url| - |logged|..]
  {
    var rest := url[|Scheme|..];
    var b := CloneUrl(token, rest);
    var a := Scheme + Credential(token);
    var c := CloneUrl(token, url);
    assert c == a + b;
    LastAtEndOfConcat(a, b);
    if '@' in b {
      assert c[|a| + LastAtEnd(b)..] == b[LastAtEnd(b)..];
    } else {
      assert a[|a| - 1] == '@';
      CloneUrlUnchangedOrHasAt(token, rest);
      assert c[|a|..] == rest;
    }
  }

  /** Elsewhere, the first character is logged only when nothing after it was rewritten. */
  lemma LoggedAfterFirst(token: string, url: string)
    requires !(Scheme <= url) && url != []
    requires var logged := LoggedUrl(CloneUrl(token, url[1..]));
             |logged| <= |url[1..]| && logged == url[1..][|url[1..]| - |logged|..]
    ensures var logged := LoggedUrl(CloneUrl(token, url));
            |logged| <= |url| && logged == url[|url| - |logged|..]
  {
    var b := CloneUrl(token, url[1..]);
    var c := CloneUrl(token, url);
    assert c == [url[0]] + b;
    LastAtEndOfConcat([url[0]], b);
    if '@' in b {
      assert c[1 + LastAtEnd(b)..] == b[LastAtEnd(b)..];
    } else {
      CloneUrlUnchangedOrHasAt(token, url[1..]);
      assert c == url;
    }
  }

}
