/** `Context` in src/main.rs: the template context, one decoded metadata table
    per dotted key. Tables are opaque here and stand as the type parameter `T`. */
module Contexts {
  import opened Results
  import opened Strings
  import opened Sequences
  import opened Paths
  import opened Errors

  /** The keys a template can look up, each with the table stored under it. */
  type Context<T> = map<string, T>

  /** The fold in `Context::insert`: starting from `acc`, every part is
      appended after a dot (`format!("{a}.{b}")`). */
  function DotFold(acc: string, parts: seq<string>): string
    decreases |parts|
  {
    if |parts| == 0 then acc else DotFold(acc + "." + parts[0], parts[1..])
  }

  /** The fold is a dot followed by the parts joined with dots. */
  lemma {:induction false} DotFoldIsDottedJoin(acc: string, parts: seq<string>)
    requires |parts| >= 1
    ensures DotFold(acc, parts) == acc + "." + Join(parts, '.')
    decreases |parts|
  {
    if |parts| > 1 {
      DotFoldIsDottedJoin(acc + "." + parts[0], parts[1..]);
      assert acc + "." + parts[0] + "." + Join(parts[1..], '.')
          == acc + "." + (parts[0] + "." + Join(parts[1..], '.'));
    }
  }

  /** A character other than the dot that is in neither `acc` nor any part is not in the fold. */
  lemma {:induction false} DotFoldAvoids(acc: string, parts: seq<string>, c: char)
    requires c != '.' && c !in acc
    requires forall i :: 0 <= i < |parts| ==> c !in parts[i]
    ensures c !in DotFold(acc, parts)
    decreases |parts|
  {
    if |parts| > 0 {
      DotFoldAvoids(acc + "." + parts[0], parts[1..], c);
    }
  }

  /** The key `Context::insert` files a table under: the extension is dropped,
      the text is split at separators, the parts are joined with dots, and
      leading dots are trimmed. */
  function Key(rel: Path): (k: string)
    ensures Separator !in k
    ensures |k| > 0 ==> k[0] != '.'
  {
    var parts := Split(Text(WithExtension(rel, "")), Separator);
    var folded := DotFold("", parts);
    SplitAvoidsSeparator(Text(WithExtension(rel, "")), Separator);
    DotFoldAvoids("", parts, Separator);
    var k := TrimStart(folded, '.');
    TrimStartSpec(folded, '.');
    assert forall i :: 0 <= i < |k| ==> k[i] == folded[|folded| - |k| + i];
    k
  }

  /** The key is the extension-less path with its components joined by dots,
      less any leading dots. */
  lemma KeyIsDottedStem(rel: Path)
    requires |rel| > 0 && ValidPath(rel)
    ensures Key(rel) == TrimStart(Join(WithExtension(rel, ""), '.'), '.')
  {
    var q := WithExtension(rel, "");
    StemPathHasNoSeparator(rel);
    SplitJoin(q, Separator);
    DotFoldIsDottedJoin("", q);
    assert "" + "." + Join(q, '.') == "." + Join(q, '.');
    assert ("." + Join(q, '.'))[1..] == Join(q, '.');
  }

  /** Without hidden components, the key is exactly the extension-less
      components joined by dots. */
  lemma KeyOfPlainPath(rel: Path)
    requires |rel| > 0 && ValidPath(rel)
    requires forall i :: 0 <= i < |rel| ==> rel[i][0] != '.'
    ensures Key(rel) == Join(WithExtension(rel, ""), '.')
  {
    KeyIsDottedStem(rel);
    var q := WithExtension(rel, "");
    var last := rel[|rel| - 1];
    assert q[|rel| - 1][0] == last[0] by {
      assert SplitName(last).stem <= last;
    }
    if |rel| > 1 {
      assert q[0] == q[..|rel| - 1][0];
    }
    assert Join(q, '.')[0] == q[0][0];
  }

  /** The key of `dir/stem.toml`, for plain names, is `dir.stem`. */
  lemma KeyOfNestedFile(dir: string, stem: string)
    requires ValidComponent(dir) && dir[0] != '.'
    requires ValidComponent(stem) && stem[0] != '.'
    ensures Key([dir, stem + ".toml"]) == dir + "." + stem
  {
    var name := stem + ".toml";
    SplitNameOfText(stem, "toml");
    assert name == stem + "." + "toml";
    assert name[0] == stem[0];
    assert ValidPath([dir, name]);
    KeyOfPlainPath([dir, name]);
    var q := WithExtension([dir, name], "");
    assert q[0] == q[..1][0] == dir;
    assert [dir, name][1] == name;
    assert FileStem([dir, name]) == Some(stem);
    assert q[1] == stem;
    assert q == [dir, stem];
  }

  /** The key of `stem.toml` at the root, for a plain name, is `stem`. */
  lemma KeyOfTopFile(stem: string)
    requires |stem| > 0 && Separator !in stem && stem[0] != '.'
    ensures Key([stem + ".toml"]) == stem
  {
    var name := stem + ".toml";
    SplitNameOfText(stem, "toml");
    assert name == stem + "." + "toml";
    assert name[0] == stem[0];
    assert ValidPath([name]);
    KeyOfPlainPath([name]);
    var q := WithExtension([name], "");
    assert [name][0] == name;
    assert FileStem([name]) == Some(stem);
    assert q[0] == stem;
    assert q == [stem];
  }

  /** Keys can collide: `a/b.toml` and `a.b.toml` are both filed under `a.b`. */
  lemma KeysCollide(a: string, b: string)
    requires ValidComponent(a) && a[0] != '.'
    requires ValidComponent(b) && b[0] != '.'
    ensures Key([a, b + ".toml"]) == Key([a + "." + b + ".toml"]) == a + "." + b
  {
    KeyOfNestedFile(a, b);
    var joined := a + "." + b;
    assert joined[0] == a[0];
    assert Separator !in joined;
    KeyOfTopFile(joined);
    assert joined + ".toml" == a + "." + b + ".toml";
  }

  /** `blog/post1.toml` is filed under `blog.post1`, and `meta.toml` under `meta`. */
  lemma KeyExamples()
    ensures Key(["blog", "post1.toml"]) == "blog.post1"
    ensures Key(["meta.toml"]) == "meta"
  {
    KeyOfNestedFile("blog", "post1");
    assert "post1" + ".toml" == "post1.toml";
    assert "blog" + "." + "post1" == "blog.post1";
    KeyOfTopFile("meta");
    assert "meta" + ".toml" == "meta.toml";
  }

  /** `Context::insert`: files `table` under the key of `rel`, replacing what
      was there, and leaves every other key alone. */
  function Insert<T>(ctx: Context<T>, rel: Path, table: T): (r: Context<T>)
    ensures r.Keys == ctx.Keys + {Key(rel)}
    ensures r[Key(rel)] == table
    ensures forall k :: k in ctx && k != Key(rel) ==> r[k] == ctx[k]
  {
    ctx[Key(rel) := table]
  }

  /** The key of a metadata file below the root directory. */
  function KeyUnder(f: Path, root: Path): string
    requires root <= f
  {
    Key(f[|root|..])
  }

  /** A metadata file can be used when it loads and lies below the root directory. */
  predicate Usable<T>(f: Path, root: Path, load: Path -> Option<T>) {
    load(f).Some? && root <= f
  }

  /** The panic that a metadata file that cannot be used causes: loading comes first. */
  function Unusable<T>(f: Path, root: Path, load: Path -> Option<T>): Failure {
    if load(f).None? then UnreadableMetadata(f) else MetadataOutsideRoot(f)
  }

  /** The index of the first metadata file that cannot be used, or `|meta|`. */
  function FirstUnusable<T>(meta: seq<Path>, root: Path, load: Path -> Option<T>): nat {
    FirstFailing(meta, f => Usable(f, root, load))
  }

  /** Past a usable first file, the search goes on in the rest. */
  lemma FirstUnusableStep<T>(meta: seq<Path>, root: Path, load: Path -> Option<T>)
    requires |meta| > 0 && Usable(meta[0], root, load)
    ensures FirstUnusable(meta, root, load) == 1 + FirstUnusable(meta[1..], root, load)
  {
  }

  /** The metadata loop of `main`: every file is loaded (`load` stands for
      opening, reading, UTF-8 decoding and TOML parsing, and yields `None` when
      any of them fails), its path is taken relative to the root directory, and
      its table is inserted into the context. Each failure is an `unwrap` panic. */
  function BuildFrom<T>(ctx: Context<T>, meta: seq<Path>, root: Path, load: Path -> Option<T>): Result<Context<T>, Failure>
    decreases |meta|
  {
    if |meta| == 0 then Ok(ctx)
    else
      var f := meta[0];
      match load(f)
      case None => Err(UnreadableMetadata(f))
      case Some(table) =>
        match StripPrefix(f, root)
        case None => Err(MetadataOutsideRoot(f))
        case Some(rel) => BuildFrom(Insert(ctx, rel, table), meta[1..], root, load)
  }

  /** The context `main` builds, starting from `Context::new()`. */
  function Build<T>(meta: seq<Path>, root: Path, load: Path -> Option<T>): Result<Context<T>, Failure> {
    BuildFrom(map[], meta, root, load)
  }

  /** The loop stops at the first metadata file it cannot use, and only there. */
  lemma {:induction false} BuildStopsAtFirstUnusable<T>(ctx: Context<T>, meta: seq<Path>, root: Path, load: Path -> Option<T>)
    ensures var i := FirstUnusable(meta, root, load);
            && (BuildFrom(ctx, meta, root, load).Err? <==> i < |meta|)
            && (i < |meta| ==> BuildFrom(ctx, meta, root, load) == Err(Unusable(meta[i], root, load)))
    decreases |meta|
  {
    if |meta| > 0 && Usable(meta[0], root, load) {
      var f := meta[0];
      var rel := f[|root|..];
      assert StripPrefix(f, root) == Some(rel);
      var next := Insert(ctx, rel, load(f).value);
      BuildStopsAtFirstUnusable(next, meta[1..], root, load);
      FirstUnusableStep(meta, root, load);
      var i := FirstUnusable(meta[1..], root, load);
      if i < |meta[1..]| {
        assert meta[1..][i] == meta[i + 1];
      }
    }
  }

  /** The key and table each usable metadata file contributes, in order. */
  function Entries<T>(meta: seq<Path>, root: Path, load: Path -> Option<T>): (e: seq<(string, T)>)
    requires forall i :: 0 <= i < |meta| ==> Usable(meta[i], root, load)
    ensures |e| == |meta|
    ensures forall i :: 0 <= i < |meta| ==> Some(e[i].1) == load(meta[i]) && root <= meta[i] && e[i].0 == KeyUnder(meta[i], root)
  {
    if |meta| == 0 then []
    else
      assert Usable(meta[0], root, load);
      assert forall i :: 1 <= i < |meta| ==> meta[1..][i - 1] == meta[i];
      [(KeyUnder(meta[0], root), load(meta[0]).value)] + Entries(meta[1..], root, load)
  }

  /** Once every metadata file is usable, the loop inserts their entries one
      after another. */
  lemma {:induction false} BuildInsertsEntries<T>(ctx: Context<T>, meta: seq<Path>, root: Path, load: Path -> Option<T>)
    requires forall i :: 0 <= i < |meta| ==> Usable(meta[i], root, load)
    ensures BuildFrom(ctx, meta, root, load) == Ok(InsertAll(ctx, Entries(meta, root, load)))
    decreases |meta|
  {
    if |meta| > 0 {
      var f := meta[0];
      assert Usable(f, root, load);
      var rel := f[|root|..];
      assert StripPrefix(f, root) == Some(rel);
      var tail := meta[1..];
      assert forall i :: 0 <= i < |tail| ==> tail[i] == meta[i + 1];
      BuildInsertsEntries(Insert(ctx, rel, load(f).value), tail, root, load);
      assert Entries(meta, root, load)[1..] == Entries(tail, root, load);
    }
  }

  /** Inserting entries one after another, as the metadata loop does. */
  function InsertAll<T>(ctx: Context<T>, entries: seq<(string, T)>): Context<T>
    decreases |entries|
  {
    if |entries| == 0 then ctx
    else InsertAll(ctx[entries[0].0 := entries[0].1], entries[1..])
  }

  /** The keys of some entries. */
  function EntryKeys<T>(entries: seq<(string, T)>): set<string> {
    set i | 0 <= i < |entries| :: entries[i].0
  }

  /** Inserting entries adds exactly their keys. */
  lemma {:induction false} InsertAllKeys<T>(ctx: Context<T>, entries: seq<(string, T)>)
    ensures InsertAll(ctx, entries).Keys == ctx.Keys + EntryKeys(entries)
    decreases |entries|
  {
    if |entries| > 0 {
      var tail := entries[1..];
      InsertAllKeys(ctx[entries[0].0 := entries[0].1], tail);
      assert EntryKeys(entries) == {entries[0].0} + EntryKeys(tail) by {
        forall k | k in EntryKeys(entries)
          ensures k in {entries[0].0} + EntryKeys(tail)
        {
          var i :| 0 <= i < |entries| && entries[i].0 == k;
          if i > 0 {
            assert tail[i - 1] == entries[i];
          }
        }
        forall k | k in EntryKeys(tail)
          ensures k in EntryKeys(entries)
        {
          var i :| 0 <= i < |tail| && tail[i].0 == k;
          assert tail[i] == entries[i + 1];
        }
      }
    } else {
      assert EntryKeys(entries) == {};
    }
  }

  /** A key no entry has keeps its table. */
  lemma {:induction false} InsertAllKeepsOthers<T>(ctx: Context<T>, entries: seq<(string, T)>, k: string)
    requires k in ctx
    requires forall i :: 0 <= i < |entries| ==> entries[i].0 != k
    ensures k in InsertAll(ctx, entries) && InsertAll(ctx, entries)[k] == ctx[k]
    decreases |entries|
  {
    if |entries| > 0 {
      var tail := entries[1..];
      assert forall i :: 0 <= i < |tail| ==> tail[i] == entries[i + 1];
      InsertAllKeepsOthers(ctx[entries[0].0 := entries[0].1], tail, k);
    }
  }

  /** Last write wins: an entry that no later entry shares its key with has
      its table in the result. */
  lemma {:induction false} InsertAllLastWins<T>(ctx: Context<T>, entries: seq<(string, T)>, i: nat)
    requires i < |entries|
    requires forall j :: i < j < |entries| ==> entries[j].0 != entries[i].0
    ensures entries[i].0 in InsertAll(ctx, entries)
    ensures InsertAll(ctx, entries)[entries[i].0] == entries[i].1
    decreases |entries|
  {
    var tail := entries[1..];
    var next := ctx[entries[0].0 := entries[0].1];
    assert forall j :: 0 <= j < |tail| ==> tail[j] == entries[j + 1];
    if i == 0 {
      InsertAllKeepsOthers(next, tail, entries[0].0);
    } else {
      InsertAllLastWins(next, tail, i - 1);
    }
  }

  /** The context `main` builds from usable metadata files: its keys are
      exactly the files' keys, and under each key lies the table of the last
      file that has it. */
  lemma {:induction false} BuildHoldsLastTables<T>(meta: seq<Path>, root: Path, load: Path -> Option<T>)
    requires forall i :: 0 <= i < |meta| ==> Usable(meta[i], root, load)
    ensures var e := Entries(meta, root, load);
            && Build(meta, root, load).Ok?
            && Build(meta, root, load).value.Keys == EntryKeys(e)
            && forall i :: 0 <= i < |e| && (forall j :: i < j < |e| ==> e[j].0 != e[i].0) ==>
                 e[i].0 in Build(meta, root, load).value && Build(meta, root, load).value[e[i].0] == e[i].1
  {
    var e := Entries(meta, root, load);
    BuildInsertsEntries(map[], meta, root, load);
    InsertAllKeys(map[], e);
    forall i | 0 <= i < |e| && (forall j :: i < j < |e| ==> e[j].0 != e[i].0)
      ensures e[i].0 in InsertAll(map[], e) && InsertAll(map[], e)[e[i].0] == e[i].1
    {
      InsertAllLastWins(map[], e, i);
    }
  }
}
