/** Which paths a glob pattern matches, as the `glob` crate decides with its
    default options: within a component `*` matches any run of characters and
    `?` any one character, and a component that is exactly `**` matches any
    number of whole components, none included. */
module Glob {
  import opened Strings
  import opened Paths

  /** The characters that make a pattern component more than a literal name. */
  const Meta: set<char> := {'*', '?', '['}

  /** A pattern component with no metacharacter, which stands for itself. */
  predicate Literal(c: string) {
    NoneOf(c, Meta)
  }

  /** One path component against one pattern component. */
  predicate MatchName(pat: string, name: string)
    decreases |pat| + |name|
  {
    if |pat| == 0 then |name| == 0
    else if pat[0] == '*' then
      MatchName(pat[1..], name) || (|name| > 0 && MatchName(pat, name[1..]))
    else
      |name| > 0 && (pat[0] == '?' || pat[0] == name[0]) && MatchName(pat[1..], name[1..])
  }

  /** A whole path against a whole pattern. */
  predicate Matches(pat: Path, p: Path)
    decreases |pat| + |p|
  {
    if |pat| == 0 then |p| == 0
    else if pat[0] == "**" then
      Matches(pat[1..], p) || (|p| > 0 && Matches(pat, p[1..]))
    else
      |p| > 0 && MatchName(pat[0], p[0]) && Matches(pat[1..], p[1..])
  }

  /** The recursive component is not a literal. */
  lemma RecursiveIsNotLiteral()
    ensures !Literal("**")
  {
    assert "**"[0] == '*';
  }

  /** A literal pattern component matches exactly itself. */
  lemma {:induction false} LiteralMatchesItself(lit: string, name: string)
    requires Literal(lit)
    ensures MatchName(lit, name) <==> name == lit
  {
    if |lit| > 0 && |name| > 0 {
      assert lit[0] !in Meta;
      LiteralMatchesItself(lit[1..], name[1..]);
      assert lit == [lit[0]] + lit[1..];
      assert name == [name[0]] + name[1..];
    } else if |lit| > 0 {
      assert lit[0] !in Meta;
    }
  }

  /** A match of a pattern whose first `k` components are literal repeats them
      and matches the rest of the pattern with the rest of the path. */
  lemma {:induction false} MatchLiteralPrefix(pat: Path, p: Path, k: nat)
    requires k <= |pat|
    requires forall i :: 0 <= i < k ==> Literal(pat[i])
    requires Matches(pat, p)
    ensures k <= |p| && p[..k] == pat[..k] && Matches(pat[k..], p[k..])
  {
    if k > 0 {
      assert Literal(pat[0]);
      RecursiveIsNotLiteral();
      LiteralMatchesItself(pat[0], p[0]);
      MatchLiteralPrefix(pat[1..], p[1..], k - 1);
      assert pat[1..][k - 1..] == pat[k..] && p[1..][k - 1..] == p[k..];
      assert pat[..k] == [pat[0]] + pat[1..][..k - 1];
      assert p[..k] == [p[0]] + p[1..][..k - 1];
    }
  }

  /** A path that matches a pattern ending in an ordinary component is not empty. */
  lemma {:induction false} MatchNeedsAComponent(pat: Path, p: Path)
    requires |pat| > 0 && pat[|pat| - 1] != "**"
    requires Matches(pat, p)
    ensures |p| > 0
  {
    if pat[0] == "**" && |p| == 0 {
      assert |pat| > 1;
      assert pat[1..][|pat[1..]| - 1] == pat[|pat| - 1];
      MatchNeedsAComponent(pat[1..], p);
    }
  }

  /** The recursive suffix `**` `/` `*` matches exactly the non-empty paths. */
  lemma {:induction false} AnyDepthMatches(rest: Path)
    ensures Matches(["**", "*"], rest) <==> |rest| > 0
  {
    var pat: Path := ["**", "*"];
    assert pat[1..] == ["*"];
    if |rest| > 0 {
      assert MatchName("*", rest[0]) by { StarMatchesAll(rest[0]); }
      if |rest| == 1 {
        assert Matches(["*"], rest);
      } else {
        AnyDepthMatches(rest[1..]);
      }
    } else if Matches(pat, rest) {
      MatchNeedsAComponent(pat, rest);
    }
  }

  /** A lone `*` matches every name. */
  lemma {:induction false} StarMatchesAll(name: string)
    ensures MatchName("*", name)
  {
    if |name| > 0 {
      StarMatchesAll(name[1..]);
    }
  }

  /** A pattern of literal components followed by a pattern `tail` matches
      exactly the literal components followed by a path `tail` matches. */
  lemma {:induction false} LiteralThenTail(lit: Path, tail: Path, rest: Path)
    requires forall i :: 0 <= i < |lit| ==> Literal(lit[i])
    ensures Matches(lit + tail, lit + rest) <==> Matches(tail, rest)
  {
    if |lit| > 0 {
      assert Literal(lit[0]);
      RecursiveIsNotLiteral();
      LiteralMatchesItself(lit[0], lit[0]);
      LiteralThenTail(lit[1..], tail, rest);
      assert (lit + tail)[1..] == lit[1..] + tail;
      assert (lit + rest)[1..] == lit[1..] + rest;
    } else {
      assert lit + tail == tail && lit + rest == rest;
    }
  }
}
