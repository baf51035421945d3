/** The handful of `str` operations the path code relies on. */
module Strings {

  /** The text of `parts` with `sep` between consecutive parts, as `[String]::join`. */
  function Join(parts: seq<string>, sep: char): string
  {
    if |parts| == 0 then ""
    else if |parts| == 1 then parts[0]
    else parts[0] + [sep] + Join(parts[1..], sep)
  }

  /** `str::split` on one character: the maximal runs between separators,
      empty runs included, so `""` splits into `[""]` and `"a/"` into `["a", ""]`. */
  function Split(s: string, sep: char): (parts: seq<string>)
    ensures |parts| >= 1
  {
    if |s| == 0 then [""]
    else
      var rest := Split(s[1..], sep);
      if s[0] == sep then [""] + rest
      else [[s[0]] + rest[0]] + rest[1..]
  }

  /** No part holds the separator. */
  lemma {:induction false} SplitAvoidsSeparator(s: string, sep: char)
    ensures forall i :: 0 <= i < |Split(s, sep)| ==> sep !in Split(s, sep)[i]
  {
    if |s| > 0 {
      SplitAvoidsSeparator(s[1..], sep);
      var rest := Split(s[1..], sep);
      if s[0] != sep {
        var parts := Split(s, sep);
        assert parts[0] == [s[0]] + rest[0];
        assert forall i :: 1 <= i < |parts| ==> parts[i] == rest[i];
      }
    }
  }

  /** Splitting and joining again gives back the text. */
  lemma {:induction false} JoinSplit(s: string, sep: char)
    ensures Join(Split(s, sep), sep) == s
  {
    if |s| > 0 {
      var rest := Split(s[1..], sep);
      JoinSplit(s[1..], sep);
      if s[0] == sep {
        assert ([""] + rest)[1..] == rest;
      } else if |rest| > 1 {
        assert ([[s[0]] + rest[0]] + rest[1..])[1..] == rest[1..];
        assert [s[0]] + Join(rest, sep) == s;
      } else {
        assert s == [s[0]] + s[1..];
      }
    }
  }

  /** A character other than the separator joins the first part. */
  lemma SplitCons(c: char, t: string, sep: char)
    requires c != sep
    ensures Split([c] + t, sep) == [[c] + Split(t, sep)[0]] + Split(t, sep)[1..]
  {
    assert ([c] + t)[1..] == t;
  }

  /** Splitting text that starts with a separator-free run glues that run onto the first part. */
  lemma {:induction false} SplitAfterRun(a: string, t: string, sep: char)
    requires sep !in a
    ensures Split(a + t, sep) == [a + Split(t, sep)[0]] + Split(t, sep)[1..]
  {
    var rest := Split(t, sep);
    if |a| > 0 {
      var tail := a[1..] + t;
      assert a + t == [a[0]] + tail;
      SplitAfterRun(a[1..], t, sep);
      var inner := Split(tail, sep);
      SplitCons(a[0], tail, sep);
      assert [a[0]] + inner[0] == a + rest[0] by {
        assert inner[0] == a[1..] + rest[0];
        assert a == [a[0]] + a[1..];
      }
    } else {
      assert a + t == t;
      assert rest == [rest[0]] + rest[1..];
      assert a + rest[0] == rest[0];
    }
  }

  /** Joining separator-free parts and splitting again gives back the parts. */
  lemma {:induction false} SplitJoin(parts: seq<string>, sep: char)
    requires |parts| >= 1
    requires forall i :: 0 <= i < |parts| ==> sep !in parts[i]
    ensures Split(Join(parts, sep), sep) == parts
  {
    if |parts| == 1 {
      SplitAfterRun(parts[0], "", sep);
      assert parts[0] + "" == parts[0];
      var empty := Split("", sep);
      assert empty == [""];
      assert empty[1..] == [];
      assert Split(parts[0], sep) == [parts[0] + empty[0]] + empty[1..];
      assert [parts[0] + empty[0]] + empty[1..] == [parts[0]];
      assert Join(parts, sep) == parts[0];
      assert parts == [parts[0]];
    } else {
      var tail := Join(parts[1..], sep);
      SplitJoin(parts[1..], sep);
      assert Join(parts, sep) == parts[0] + ([sep] + tail);
      SplitAfterRun(parts[0], [sep] + tail, sep);
      assert ([sep] + tail)[1..] == tail;
      var rest := Split([sep] + tail, sep);
      assert rest == [""] + parts[1..];
      assert rest[0] == "" && rest[1..] == parts[1..];
      assert parts[0] + rest[0] == parts[0];
      assert parts == [parts[0]] + parts[1..];
    }
  }

  /** No character of `chars` occurs in `s`. */
  predicate NoneOf(s: string, chars: set<char>) {
    forall i :: 0 <= i < |s| ==> s[i] !in chars
  }

  lemma NoneOfConcat(a: string, b: string, chars: set<char>)
    ensures NoneOf(a + b, chars) <==> NoneOf(a, chars) && NoneOf(b, chars)
  {
    if NoneOf(a, chars) && NoneOf(b, chars) {
      forall i | 0 <= i < |a + b|
        ensures (a + b)[i] !in chars
      {
        if i >= |a| {
          assert (a + b)[i] == b[i - |a|];
        }
      }
    }
    if NoneOf(a + b, chars) {
      forall i | 0 <= i < |a|
        ensures a[i] !in chars
      {
        assert (a + b)[i] == a[i];
      }
      forall i | 0 <= i < |b|
        ensures b[i] !in chars
      {
        assert (a + b)[|a| + i] == b[i];
      }
    }
  }

  /** When the separator is not among `chars`, the joined text avoids `chars`
      exactly when every part does. */
  lemma {:induction false} JoinNoneOf(parts: seq<string>, sep: char, chars: set<char>)
    requires sep !in chars
    ensures NoneOf(Join(parts, sep), chars) <==> forall i :: 0 <= i < |parts| ==> NoneOf(parts[i], chars)
  {
    if |parts| > 1 {
      var tail := Join(parts[1..], sep);
      JoinNoneOf(parts[1..], sep, chars);
      NoneOfConcat(parts[0], [sep] + tail, chars);
      NoneOfConcat([sep], tail, chars);
      assert parts[0] + [sep] + tail == parts[0] + ([sep] + tail);
      assert forall i :: 1 <= i < |parts| ==> parts[i] == parts[1..][i - 1];
    }
  }

  /** `str::trim_start_matches(c)`: every leading `c` removed. */
  function TrimStart(s: string, c: char): string {
    if |s| > 0 && s[0] == c then TrimStart(s[1..], c) else s
  }

  /** The result is what is left of `s` after a run of `c`, and does not start with `c`. */
  lemma {:induction false} TrimStartSpec(s: string, c: char)
    ensures var r := TrimStart(s, c);
            && |r| <= |s| && r == s[|s| - |r|..]
            && (forall i :: 0 <= i < |s| - |r| ==> s[i] == c)
            && (|r| > 0 ==> r[0] != c)
  {
    if |s| > 0 && s[0] == c {
      TrimStartSpec(s[1..], c);
      var r := TrimStart(s, c);
      assert forall i :: 1 <= i < |s| - |r| ==> s[i] == s[1..][i - 1];
    }
  }

  /** The index of the last occurrence of `c` in `s`, or -1 when there is none. */
  function LastIndexOf(s: string, c: char): (r: int)
    ensures -1 <= r < |s|
  {
    if |s| == 0 then -1
    else if s[|s| - 1] == c then |s| - 1
    else LastIndexOf(s[..|s| - 1], c)
  }

  /** The result holds `c` and no `c` follows it. */
  lemma {:induction false} LastIndexOfSpec(s: string, c: char)
    ensures var r := LastIndexOf(s, c);
            && (r >= 0 ==> s[r] == c)
            && (forall j :: r < j < |s| ==> s[j] != c)
  {
    if |s| > 0 && s[|s| - 1] != c {
      LastIndexOfSpec(s[..|s| - 1], c);
    }
  }

  /** The two conditions of `LastIndexOf` pin its result down. */
  lemma {:induction false} LastIndexOfAt(s: string, c: char, k: int)
    requires -1 <= k < |s|
    requires k >= 0 ==> s[k] == c
    requires forall j :: k < j < |s| ==> s[j] != c
    ensures LastIndexOf(s, c) == k
  {
    if |s| > 0 && k < |s| - 1 {
      LastIndexOfAt(s[..|s| - 1], c, k);
    }
  }
}
