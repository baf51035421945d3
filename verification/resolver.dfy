/** `FilePath` in src/main.rs: from the input path (which may hold wildcards)
    and the output root it derives the search pattern and the root directory,
    and maps every discovered file to its place under the output root. */
module Resolver {
  import opened Results
  import opened Strings
  import opened Paths
  import opened Glob
  import opened Errors

  /** The suffix `make_recursive` joins on: every file at any depth below. */
  const RecursiveSuffix: Path := ["**", "*"]

  /** The only character `has_no_wildcard` looks for. */
  const Wildcards: set<char> := {'*'}

  /** The search pattern, the root directory that relative paths are taken
      from, and the output root. */
  datatype FilePath = FilePath(pattern: Path, rootDir: Path, output: Path)

  /** `FilePath::make_recursive`: joins the two components `**` and `*` onto the path. */
  function MakeRecursive(p: Path): (r: Path)
    ensures p <= r && |r| == |p| + 2
  {
    p + RecursiveSuffix
  }

  /** `FilePath::has_no_wildcard`. */
  predicate HasNoWildcard(s: string) {
    NoneOf(s, Wildcards)
  }

  /** The first of the ancestors `p[..k]`, `p[..k-1]`, ..., `[]` whose text
      avoids `meta`. The empty ancestor always qualifies, so the walk never
      falls through to `PathBuf::new()`. */
  function DeepestAncestorAvoiding(p: Path, k: nat, meta: set<char>): (r: Path)
    requires k <= |p|
    ensures r <= p && |r| <= k
    ensures NoneOf(Text(r), meta)
    ensures forall j :: |r| < j <= k ==> !NoneOf(Text(p[..j]), meta)
    decreases k
  {
    if k == 0 || NoneOf(Text(p[..k]), meta) then p[..k]
    else DeepestAncestorAvoiding(p, k - 1, meta)
  }

  /** `FilePath::strip_wildcards` as written: the deepest ancestor of `p`,
      `p` itself first, whose text contains no `*`. */
  function StripWildcards(p: Path): (r: Path)
    ensures r <= p
    ensures HasNoWildcard(Text(r))
    ensures forall j :: |r| < j <= |p| ==> !HasNoWildcard(Text(p[..j]))
    ensures HasNoWildcard(Text(p)) ==> r == p
  {
    var r := DeepestAncestorAvoiding(p, |p|, Wildcards);
    assert p[..|p|] == p;
    r
  }

  /** The root directory the glob crate actually respects: the deepest
      ancestor whose text has no glob metacharacter at all (`*`, `?` or `[`). */
  function ConcreteRoot(p: Path): (r: Path)
    ensures r <= p
    ensures NoneOf(Text(r), Meta)
    ensures forall j :: |r| < j <= |p| ==> !NoneOf(Text(p[..j]), Meta)
    ensures NoneOf(Text(p), Meta) ==> r == p
  {
    var r := DeepestAncestorAvoiding(p, |p|, Meta);
    assert p[..|p|] == p;
    r
  }

  /** The number of leading components of `p` that avoid `meta`. */
  function LeadingAvoiding(p: Path, meta: set<char>): (k: nat)
    ensures k <= |p|
    ensures forall i :: 0 <= i < k ==> NoneOf(p[i], meta)
    ensures k < |p| ==> !NoneOf(p[k], meta)
  {
    if |p| == 0 || !NoneOf(p[0], meta) then 0
    else 1 + LeadingAvoiding(p[1..], meta)
  }

  /** The ancestor walk cuts the path just before its first component that
      holds a character of `meta`: the walk is a parse of the path into a
      concrete prefix and a pattern suffix. */
  lemma {:induction false} AncestorIsConcretePrefix(p: Path, meta: set<char>)
    requires Separator !in meta
    ensures DeepestAncestorAvoiding(p, |p|, meta) == p[..LeadingAvoiding(p, meta)]
  {
    var r := DeepestAncestorAvoiding(p, |p|, meta);
    var k := LeadingAvoiding(p, meta);
    JoinNoneOf(p[..k], Separator, meta);
    JoinNoneOf(r, Separator, meta);
    assert NoneOf(Text(p[..k]), meta);
  }

  /** `strip_wildcards` keeps exactly the components before the first one that holds `*`. */
  lemma StripWildcardsIsConcretePrefix(p: Path)
    ensures StripWildcards(p) == p[..LeadingAvoiding(p, Wildcards)]
  {
    AncestorIsConcretePrefix(p, Wildcards);
  }

  /** The input `site`, `posts`, `*`, `index.md` is rooted at `site/posts`, and a plain `site` at itself. */
  lemma StripWildcardsExamples()
    ensures StripWildcards(["site", "posts", "*", "index.md"]) == ["site", "posts"]
    ensures StripWildcards(["site"]) == ["site"]
  {
    var p: Path := ["site", "posts", "*", "index.md"];
    assert LeadingAvoiding(p, Wildcards) == 2 by {
      assert "*"[0] == '*';
      assert NoneOf(p[0], Wildcards) && NoneOf(p[1], Wildcards);
    }
    StripWildcardsIsConcretePrefix(p);
    assert p[..2] == ["site", "posts"];
    assert HasNoWildcard(Text(["site"])) by {
      JoinNoneOf(["site"], Separator, Wildcards);
    }
  }

  /** The path holds no glob metacharacter other than `*`, the only one
      `has_no_wildcard` looks for. */
  predicate OnlyStarWildcards(p: Path) {
    forall i :: 0 <= i < |p| ==> '?' !in p[i] && '[' !in p[i]
  }

  /** Without `?` and `[` in the path, the corrected root is the root `strip_wildcards` finds. */
  lemma ConcreteRootAgrees(p: Path)
    requires OnlyStarWildcards(p)
    ensures ConcreteRoot(p) == StripWildcards(p)
  {
    AncestorIsConcretePrefix(p, Meta);
    AncestorIsConcretePrefix(p, Wildcards);
    forall i | 0 <= i < |p|
      ensures NoneOf(p[i], Meta) == NoneOf(p[i], Wildcards)
    {
      assert forall j :: 0 <= j < |p[i]| ==> p[i][j] in p[i];
    }
    LeadingAvoidingSame(p, Meta, Wildcards);
  }

  /** Two character sets that every component avoids or meets alike cut the path at the same place. */
  lemma {:induction false} LeadingAvoidingSame(p: Path, m1: set<char>, m2: set<char>)
    requires forall i :: 0 <= i < |p| ==> NoneOf(p[i], m1) == NoneOf(p[i], m2)
    ensures LeadingAvoiding(p, m1) == LeadingAvoiding(p, m2)
  {
    if |p| > 0 && NoneOf(p[0], m1) {
      LeadingAvoidingSame(p[1..], m1, m2);
    }
  }

  /** For an input without metacharacters, the search pattern matches exactly
      the paths strictly below the input. */
  lemma PatternMatchesExactlyBelow(input: Path, f: Path)
    requires forall i :: 0 <= i < |input| ==> Literal(input[i])
    ensures Matches(MakeRecursive(input), f) <==> input < f
  {
    var pat := MakeRecursive(input);
    if input < f {
      var rest := f[|input|..];
      assert f == input + rest;
      LiteralThenTail(input, RecursiveSuffix, rest);
      AnyDepthMatches(rest);
    }
    if Matches(pat, f) {
      MatchLiteralPrefix(pat, f, |input|);
      assert pat[|input|..] == RecursiveSuffix;
      AnyDepthMatches(f[|input|..]);
    }
  }

  /** Every path the search pattern matches lies strictly below the corrected
      root, whatever wildcards the input holds: the invariant that makes
      `to_output` total on discovered files. */
  lemma MatchesLieBelowConcreteRoot(input: Path, f: Path)
    requires Matches(MakeRecursive(input), f)
    ensures ConcreteRoot(input) < f
  {
    var pat := MakeRecursive(input);
    var k := LeadingAvoiding(input, Meta);
    AncestorIsConcretePrefix(input, Meta);
    assert forall i :: 0 <= i < k ==> pat[i] == input[i];
    MatchLiteralPrefix(pat, f, k);
    assert pat[..k] == input[..k];
    var tail := pat[k..];
    assert tail[|tail| - 1] == "*";
    MatchNeedsAComponent(tail, f[k..]);
  }

  /** `FilePath::new`: the recursive pattern, the root `strip_wildcards`
      finds (the deepest ancestor of the input without `*`), and the output
      root. */
  function New(input: Path, output: Path): (fp: FilePath)
    ensures fp.pattern == MakeRecursive(input) && fp.output == output
    ensures fp.rootDir <= input && HasNoWildcard(Text(fp.rootDir))
    ensures forall j :: |fp.rootDir| < j <= |input| ==> !HasNoWildcard(Text(input[..j]))
  {
    FilePath(MakeRecursive(input), StripWildcards(input), output)
  }

  /** `FilePath::new` with the corrected root directory: the deepest ancestor
      of the input without `*`, `?` or `[`. */
  function NewCorrected(input: Path, output: Path): (fp: FilePath)
    ensures fp.pattern == MakeRecursive(input) && fp.output == output
    ensures fp.rootDir <= input && NoneOf(Text(fp.rootDir), Meta)
    ensures forall j :: |fp.rootDir| < j <= |input| ==> !NoneOf(Text(input[..j]), Meta)
  {
    FilePath(MakeRecursive(input), ConcreteRoot(input), output)
  }

  /** Without `?` and `[` in the input, the two resolutions coincide. */
  lemma NewAgrees(input: Path, output: Path)
    requires OnlyStarWildcards(input)
    ensures New(input, output) == NewCorrected(input, output)
  {
    ConcreteRootAgrees(input);
  }

  /** `FilePath::to_output`: strips the root directory from `v` component by
      component and joins the rest onto the output root; fails when the root
      directory is not a prefix of `v`. */
  function ToOutput(fp: FilePath, v: Path): (r: Result<Path, Failure>)
    ensures r.Ok? <==> fp.rootDir <= v
    ensures r.Ok? ==> fp.output <= r.value && r.value[|fp.output|..] == v[|fp.rootDir|..]
    ensures r.Err? ==> r.error == OutsideRoot(v)
  {
    match StripPrefix(v, fp.rootDir)
    case Some(rel) => Ok(fp.output + rel)
    case None => Err(OutsideRoot(v))
  }

  /** Re-rooting: a path below the root directory lands at the same relative
      place below the output root, and stripping the output root gives it back. */
  lemma ToOutputRoundTrip(fp: FilePath, rel: Path)
    ensures ToOutput(fp, fp.rootDir + rel) == Ok(fp.output + rel)
    ensures StripPrefix(fp.output + rel, fp.output) == Some(rel)
  {
    assert (fp.rootDir + rel)[|fp.rootDir|..] == rel;
    assert (fp.output + rel)[|fp.output|..] == rel;
  }

  /** With an empty root directory every path is accepted and moved whole under the output root. */
  lemma ToOutputFromEmptyRoot(fp: FilePath, v: Path)
    requires fp.rootDir == []
    ensures ToOutput(fp, v) == Ok(fp.output + v)
  {
    ToOutputRoundTrip(fp, v);
    assert [] + v == v;
  }

  /** With the corrected root, a file the search pattern matched always has
      an output path. */
  lemma MatchedFilesHaveOutputsCorrected(input: Path, output: Path, f: Path)
    requires Matches(NewCorrected(input, output).pattern, f)
    ensures ToOutput(NewCorrected(input, output), f).Ok?
  {
    MatchesLieBelowConcreteRoot(input, f);
  }

  /** With the root as written, the same holds when the input has no `?` or
      `[`; `StripWildcardsKeepsQuestionMark` shows it fails otherwise. */
  lemma MatchedFilesHaveOutputs(input: Path, output: Path, f: Path)
    requires OnlyStarWildcards(input)
    requires Matches(New(input, output).pattern, f)
    ensures ToOutput(New(input, output), f).Ok?
  {
    NewAgrees(input, output);
    MatchedFilesHaveOutputsCorrected(input, output, f);
  }

  /** The search pattern made from `site/p?sts` matches `site/posts/a.md`. */
  lemma QuestionMarkMatches()
    ensures Matches(MakeRecursive(["site", "p?sts"]), ["site", "posts", "a.md"])
  {
    var pat := MakeRecursive(["site", "p?sts"]);
    var file: Path := ["site", "posts", "a.md"];
    assert MatchName("site", "site");
    assert MatchName("p?sts", "posts");
    AnyDepthMatches(["a.md"]);
    assert pat[1..][1..] == RecursiveSuffix;
    assert file[1..][1..] == ["a.md"];
    assert Matches(pat[1..], file[1..]);
  }

  /** For `site/p?sts`, `strip_wildcards` keeps the whole input while the
      corrected root stops before `p?sts`. */
  lemma QuestionMarkRoots()
    ensures StripWildcards(["site", "p?sts"]) == ["site", "p?sts"]
    ensures ConcreteRoot(["site", "p?sts"]) == ["site"]
  {
    var input: Path := ["site", "p?sts"];
    assert HasNoWildcard(Text(input)) by {
      JoinNoneOf(input, Separator, Wildcards);
    }
    assert LeadingAvoiding(input, Meta) == 1 by {
      assert "p?sts"[1] == '?';
      assert NoneOf(input[0], Meta);
    }
    AncestorIsConcretePrefix(input, Meta);
  }

  /** `strip_wildcards` as written lets `?` through: for the input `site/p?sts`
      it keeps the whole input as root, the pattern matches `site/posts/a.md`,
      and `to_output` of that page fails. The corrected root `site` places it. */
  lemma StripWildcardsKeepsQuestionMark()
    ensures var input: Path := ["site", "p?sts"];
            var file: Path := ["site", "posts", "a.md"];
            var page: Path := ["site", "posts", "a.html"];
            && Matches(New(input, ["out"]).pattern, file)
            && New(input, ["out"]).rootDir == input
            && ToOutput(New(input, ["out"]), page) == Err(OutsideRoot(page))
            && ToOutput(NewCorrected(input, ["out"]), page) == Ok(["out", "posts", "a.html"])
  {
    var input: Path := ["site", "p?sts"];
    var page: Path := ["site", "posts", "a.html"];
    QuestionMarkMatches();
    QuestionMarkRoots();
    var fixed := NewCorrected(input, ["out"]);
    assert page[1..] == ["posts", "a.html"];
    assert fixed.rootDir <= page;
    assert ["out"] + page[1..] == ["out", "posts", "a.html"];
    assert !(input <= page) by { assert input[1] != page[1]; }
  }
}
