/** The pure planning part of `main` in src/main.rs: the discovered files are
    split into metadata and content, the metadata builds the template context,
    and every content file is given the output path its page is written to. */
module Driver {
  import opened Results
  import opened Sequences
  import opened Paths
  import opened Glob
  import opened Errors
  import opened Resolver
  import opened Contexts

  /** The extension that marks a metadata file. */
  const MetadataExtension: string := "toml"

  /** The extension every page is written with. */
  const PageExtension: string := "html"

  /** A content file and the output path its rendering is written to. */
  datatype Page = Page(source: Path, target: Path)

  /** What a run plans: the context every page is rendered with, and the pages
      in discovery order. */
  datatype Site<T> = Site(context: Context<T>, pages: seq<Page>)

  predicate IsMetadata(f: Path) {
    Extension(f) == Some(MetadataExtension)
  }

  /** A file that is not metadata is content. */
  predicate IsContent(f: Path) {
    !IsMetadata(f)
  }

  predicate HasExtension(f: Path) {
    Extension(f).Some?
  }

  /** The index of the first file without an extension, or `|files|`. */
  function FirstWithoutExtension(files: seq<Path>): nat {
    FirstFailing(files, HasExtension)
  }

  /** The partition in `main`: `Iterator::partition` with the test
      `extension().unwrap() == "toml"`, so a file is metadata exactly when its
      extension is `toml`, and the first file without an extension panics. */
  function Partition(files: seq<Path>): Result<(seq<Path>, seq<Path>), Failure> {
    match PartitionFrom(files, HasExtension, IsMetadata, [], [])
    case Ok(parts) => Ok(parts)
    case Err(f) => Err(MissingExtension(f))
  }

  /** The partition succeeds exactly when every file has an extension; then
      the metadata list is exactly the `.toml` files and the content list the
      others, each in discovery order, and every file lands in exactly one of
      them. Otherwise the first file without an extension is the one that
      panics. */
  lemma {:induction false} PartitionSelects(files: seq<Path>)
    ensures var i := FirstWithoutExtension(files);
            Partition(files) == if i == |files| then Ok((Filter(files, IsMetadata), Filter(files, IsContent)))
                                else Err(MissingExtension(files[i]))
    ensures multiset(Filter(files, IsMetadata)) + multiset(Filter(files, IsContent)) == multiset(files)
  {
    PartitionSpec(files, HasExtension, IsMetadata, IsContent);
    FilterSplits(files, IsMetadata, IsContent);
  }

  /** The `.html` path of a content file lies below the root directory. */
  predicate Placeable(fp: FilePath, source: Path) {
    fp.rootDir <= WithExtension(source, PageExtension)
  }

  /** The index of the first content file whose `.html` path lies outside the
      root directory, or `|content|`. */
  function FirstOutsideRoot(fp: FilePath, content: seq<Path>): nat {
    FirstFailing(content, source => Placeable(fp, source))
  }

  /** Past a placeable first file, the search goes on in the rest. */
  lemma FirstOutsideRootStep(fp: FilePath, content: seq<Path>)
    requires |content| > 0 && Placeable(fp, content[0])
    ensures FirstOutsideRoot(fp, content) == 1 + FirstOutsideRoot(fp, content[1..])
  {
  }

  /** The page loop of `main`: each content file, renamed to `.html`, is given
      its output path; the first failure of `to_output` ends the run through
      `?`. What `Roxy::process_file` returns is dropped, so rendering never
      stops the loop. */
  function PlanPages(fp: FilePath, content: seq<Path>): (r: Result<seq<Page>, Failure>)
    ensures var i := FirstOutsideRoot(fp, content);
            && (r.Ok? <==> i == |content|)
            && (r.Err? ==> r.error == OutsideRoot(WithExtension(content[i], PageExtension)))
    ensures r.Ok? ==> |r.value| == |content|
    ensures r.Ok? ==> forall i :: 0 <= i < |content| ==>
              r.value[i].source == content[i]
              && ToOutput(fp, WithExtension(content[i], PageExtension)) == Ok(r.value[i].target)
  {
    if |content| == 0 then Ok([])
    else
      var target :- ToOutput(fp, WithExtension(content[0], PageExtension));
      FirstOutsideRootStep(fp, content);
      assert forall i :: 1 <= i < |content| ==> content[1..][i - 1] == content[i];
      var rest :- PlanPages(fp, content[1..]);
      Ok([Page(content[0], target)] + rest)
  }

  /** A planned page whose source lies strictly below the root directory is
      an `.html` file strictly below the output root, at the same relative
      place. */
  lemma PlannedPageIsHtmlBelowOutput(fp: FilePath, source: Path, target: Path)
    requires ValidPath(source) && |fp.rootDir| < |source|
    requires ToOutput(fp, WithExtension(source, PageExtension)) == Ok(target)
    ensures fp.output < target
    ensures target[|fp.output|..] == WithExtension(source, PageExtension)[|fp.rootDir|..]
    ensures Extension(target) == Some(PageExtension)
  {
    var renamed := WithExtension(source, PageExtension);
    assert ValidComponent(source[|source| - 1]);
    WithExtensionSetsExtension(source, PageExtension);
    assert |target| == |fp.output| + |renamed| - |fp.rootDir|;
    assert target[|target| - 1] == target[|fp.output|..][|target| - |fp.output| - 1];
    assert target[|target| - 1] == renamed[|renamed| - 1];
  }

  /** A run of `main` up to the rendering once the paths are resolved:
      partition the discovered files, build the context from the metadata
      files, and plan one page per content file. `load` stands for reading
      and decoding a metadata file. */
  function RunWith<T>(fp: FilePath, discovered: seq<Path>, load: Path -> Option<T>): Result<Site<T>, Failure> {
    var parts :- Partition(discovered);
    var context :- Build(parts.0, fp.rootDir, load);
    var pages :- PlanPages(fp, parts.1);
    Ok(Site(context, pages))
  }

  /** `main` as written: the paths are resolved by `FilePath::new`. */
  function Run<T>(input: Path, output: Path, discovered: seq<Path>, load: Path -> Option<T>): Result<Site<T>, Failure> {
    RunWith(New(input, output), discovered, load)
  }

  /** `main` with the corrected root directory. */
  function RunCorrected<T>(input: Path, output: Path, discovered: seq<Path>, load: Path -> Option<T>): Result<Site<T>, Failure> {
    RunWith(NewCorrected(input, output), discovered, load)
  }

  /** A run fails at the first obstacle in program order: a discovered file
      without an extension, then a metadata file that cannot be used, then a
      page outside the root directory; with none of these it succeeds. This
      holds for any resolved paths, so for `Run` and `RunCorrected` alike. */
  lemma {:induction false} RunFailsAtFirstObstacle<T>(fp: FilePath, discovered: seq<Path>, load: Path -> Option<T>)
    ensures var meta := Filter(discovered, IsMetadata);
            var content := Filter(discovered, IsContent);
            var i := FirstWithoutExtension(discovered);
            var j := FirstUnusable(meta, fp.rootDir, load);
            var k := FirstOutsideRoot(fp, content);
            var r := RunWith(fp, discovered, load);
            && (i < |discovered| ==> r == Err(MissingExtension(discovered[i])))
            && (i == |discovered| && j < |meta| ==> r == Err(Unusable(meta[j], fp.rootDir, load)))
            && (i == |discovered| && j == |meta| && k < |content| ==>
                  r == Err(OutsideRoot(WithExtension(content[k], PageExtension))))
            && (r.Ok? <==> i == |discovered| && j == |meta| && k == |content|)
  {
    PartitionSelects(discovered);
    BuildStopsAtFirstUnusable(map[], Filter(discovered, IsMetadata), fp.rootDir, load);
  }

  /** The page `site/posts/a.md` has an extension, is content, and is
      written as `site/posts/a.html`. */
  lemma QuestionMarkPage()
    ensures var file: Path := ["site", "posts", "a.md"];
            && HasExtension(file) && !IsMetadata(file)
            && Filter([file], IsMetadata) == [] && Filter([file], IsContent) == [file]
            && WithExtension(file, PageExtension) == ["site", "posts", "a.html"]
  {
    var file: Path := ["site", "posts", "a.md"];
    assert "a" + "." + "md" == "a.md";
    SplitNameOfText("a", "md");
    assert "a" + "." + "html" == "a.html";
    assert [file][..0] == [];
  }

  /** `main` as written stops on `site/p?sts`: the pattern finds
      `site/posts/a.md`, which is not below the root `site/p?sts`, so its page
      has no output path. */
  lemma {:induction false} RunStopsOnQuestionMark<T>(load: Path -> Option<T>)
    ensures Matches(MakeRecursive(["site", "p?sts"]), ["site", "posts", "a.md"])
    ensures Run(["site", "p?sts"], ["out"], [["site", "posts", "a.md"]], load) == Err(OutsideRoot(["site", "posts", "a.html"]))
  {
    var input: Path := ["site", "p?sts"];
    var file: Path := ["site", "posts", "a.md"];
    var discovered: seq<Path> := [file];
    var fp := New(input, ["out"]);
    assert Matches(MakeRecursive(input), file) && !Placeable(fp, file) by {
      StripWildcardsKeepsQuestionMark();
      QuestionMarkPage();
    }
    assert RunWith(fp, discovered, load) == Err(OutsideRoot(["site", "posts", "a.html"])) by {
      QuestionMarkPage();
      FirstFailingAllPass(discovered, HasExtension);
      RunFailsAtFirstObstacle(fp, discovered, load);
    }
  }

  /** The corrected run places the same page at `out/posts/a.html`. */
  lemma RunCorrectedPlacesQuestionMark<T>(load: Path -> Option<T>)
    ensures var input: Path := ["site", "p?sts"];
            var discovered: seq<Path> := [["site", "posts", "a.md"]];
            RunCorrected(input, ["out"], discovered, load)
              == Ok(Site(map[], [Page(discovered[0], ["out", "posts", "a.html"])]))
  {
    var input: Path := ["site", "p?sts"];
    var file: Path := ["site", "posts", "a.md"];
    var discovered: seq<Path> := [file];
    var fp := NewCorrected(input, ["out"]);
    assert ToOutput(fp, WithExtension(file, PageExtension)) == Ok(["out", "posts", "a.html"]) by {
      StripWildcardsKeepsQuestionMark();
      QuestionMarkPage();
    }
    assert FirstOutsideRoot(fp, discovered) == 1 by {
      assert Placeable(fp, file);
      FirstFailingAllPass(discovered, source => Placeable(fp, source));
    }
    var pages := [Page(file, ["out", "posts", "a.html"])];
    assert PlanPages(fp, discovered) == Ok(pages) by {
      var planned := PlanPages(fp, discovered).value;
      assert planned[0].source == file;
      assert ToOutput(fp, WithExtension(file, PageExtension)) == Ok(planned[0].target);
      assert planned == pages;
    }
    assert RunWith(fp, discovered, load) == Ok(Site(map[], pages)) by {
      QuestionMarkPage();
      FirstFailingAllPass(discovered, HasExtension);
      RunSucceeds(fp, discovered, load);
      assert InsertAll(map[], Entries([], fp.rootDir, load)) == map[];
    }
  }

  /** Every file the search pattern matches lies strictly below the corrected
      root directory. */
  lemma DiscoveredBelowRoot(input: Path, discovered: seq<Path>)
    requires forall i :: 0 <= i < |discovered| ==> Matches(MakeRecursive(input), discovered[i])
    ensures forall f :: f in discovered ==> ConcreteRoot(input) < f
  {
    forall f | f in discovered
      ensures ConcreteRoot(input) < f
    {
      var i :| 0 <= i < |discovered| && discovered[i] == f;
      MatchesLieBelowConcreteRoot(input, f);
    }
  }

  /** Metadata files that load and lie below the root directory are usable. */
  lemma MetadataUsable<T>(discovered: seq<Path>, root: Path, load: Path -> Option<T>)
    requires forall f :: f in discovered ==> root < f
    requires forall f :: f in discovered && IsMetadata(f) ==> load(f).Some?
    ensures var meta := Filter(discovered, IsMetadata);
            forall i :: 0 <= i < |meta| ==> Usable(meta[i], root, load)
  {
    FilterIsSubset(discovered, IsMetadata);
  }

  /** Content files that lie strictly below the root directory keep their
      `.html` paths below it. */
  lemma ContentPlaceable(fp: FilePath, discovered: seq<Path>)
    requires forall f :: f in discovered ==> fp.rootDir < f
    ensures FirstOutsideRoot(fp, Filter(discovered, IsContent)) == |Filter(discovered, IsContent)|
  {
    var content := Filter(discovered, IsContent);
    FilterIsSubset(discovered, IsContent);
    forall i | 0 <= i < |content|
      ensures Placeable(fp, content[i])
    {
      var c := content[i];
      var renamed := WithExtension(c, PageExtension);
      assert fp.rootDir <= c[..|c| - 1];
      assert renamed[..|c| - 1] == c[..|c| - 1];
    }
    FirstFailingAllPass(content, source => Placeable(fp, source));
  }

  /** With every file having an extension, every metadata file usable and
      every page placeable, a run yields the inserted metadata entries and the
      planned pages. */
  lemma {:induction false} RunSucceeds<T>(fp: FilePath, discovered: seq<Path>, load: Path -> Option<T>)
    requires forall i :: 0 <= i < |discovered| ==> HasExtension(discovered[i])
    requires var meta := Filter(discovered, IsMetadata);
             forall i :: 0 <= i < |meta| ==> Usable(meta[i], fp.rootDir, load)
    requires var content := Filter(discovered, IsContent);
             FirstOutsideRoot(fp, content) == |content|
    ensures var meta := Filter(discovered, IsMetadata);
            var content := Filter(discovered, IsContent);
            RunWith(fp, discovered, load)
              == Ok(Site(InsertAll(map[], Entries(meta, fp.rootDir, load)), PlanPages(fp, content).value))
  {
    var meta := Filter(discovered, IsMetadata);
    var content := Filter(discovered, IsContent);
    PartitionSelects(discovered);
    FirstFailingAllPass(discovered, HasExtension);
    assert Partition(discovered) == Ok((meta, content));
    BuildInsertsEntries(map[], meta, fp.rootDir, load);
  }

  /** Planned pages of valid content files strictly below the root directory
      are `.html` files at their relative places below the output root. */
  lemma {:induction false} PlannedPages(fp: FilePath, content: seq<Path>)
    requires forall i :: 0 <= i < |content| ==> ValidPath(content[i]) && fp.rootDir < content[i]
    requires PlanPages(fp, content).Ok?
    ensures var pages := PlanPages(fp, content).value;
            forall i :: 0 <= i < |content| ==>
              && pages[i].source == content[i]
              && fp.output < pages[i].target
              && Extension(pages[i].target) == Some(PageExtension)
              && pages[i].target == fp.output + WithExtension(content[i], PageExtension)[|fp.rootDir|..]
  {
    var pages := PlanPages(fp, content).value;
    forall i | 0 <= i < |content|
      ensures fp.output < pages[i].target
      ensures Extension(pages[i].target) == Some(PageExtension)
      ensures pages[i].target == fp.output + WithExtension(content[i], PageExtension)[|fp.rootDir|..]
    {
      PlannedPageIsHtmlBelowOutput(fp, content[i], pages[i].target);
    }
  }

  /** What a successful run promises: every metadata file is usable, the
      context is the metadata entries inserted in discovery order (see
      `BuildHoldsLastTables`), metadata files are never pages, and every
      content file, in discovery order, becomes an `.html` page at its
      relative place below the output root. */
  ghost predicate PlansEveryPage<T>(site: Site<T>, fp: FilePath, discovered: seq<Path>, load: Path -> Option<T>) {
    var meta := Filter(discovered, IsMetadata);
    var content := Filter(discovered, IsContent);
    && (forall i :: 0 <= i < |meta| ==> Usable(meta[i], fp.rootDir, load))
    && site.context == InsertAll(map[], Entries(meta, fp.rootDir, load))
    && |site.pages| == |content|
    && forall i :: 0 <= i < |content| ==>
         && site.pages[i].source == content[i]
         && !IsMetadata(site.pages[i].source)
         && fp.output < site.pages[i].target
         && Extension(site.pages[i].target) == Some(PageExtension)
         && fp.rootDir <= WithExtension(content[i], PageExtension)
         && site.pages[i].target == fp.output + WithExtension(content[i], PageExtension)[|fp.rootDir|..]
  }

  /** When every discovered file lies strictly below the root directory, has
      a name and an extension, and every metadata file loads, the run
      succeeds and plans every page. */
  lemma {:induction false} RunWithPlansEveryPage<T>(fp: FilePath, discovered: seq<Path>, load: Path -> Option<T>)
    requires forall i :: 0 <= i < |discovered| ==>
               fp.rootDir < discovered[i] && ValidPath(discovered[i]) && HasExtension(discovered[i])
    requires forall i :: 0 <= i < |discovered| && IsMetadata(discovered[i]) ==> load(discovered[i]).Some?
    ensures RunWith(fp, discovered, load).Ok?
    ensures PlansEveryPage(RunWith(fp, discovered, load).value, fp, discovered, load)
  {
    var content := Filter(discovered, IsContent);
    MetadataUsable(discovered, fp.rootDir, load);
    ContentPlaceable(fp, discovered);
    RunSucceeds(fp, discovered, load);
    FilterIsSubset(discovered, IsContent);
    PlannedPages(fp, content);
  }

  /** With the corrected root, when discovery keeps its promise (every file
      matches the search pattern, has a name and an extension) and every
      metadata file loads, the run succeeds and plans every page. */
  lemma {:induction false} RunCorrectedPlansEveryPage<T>(input: Path, output: Path, discovered: seq<Path>, load: Path -> Option<T>)
    requires forall i :: 0 <= i < |discovered| ==>
               Matches(MakeRecursive(input), discovered[i]) && ValidPath(discovered[i]) && HasExtension(discovered[i])
    requires forall i :: 0 <= i < |discovered| && IsMetadata(discovered[i]) ==> load(discovered[i]).Some?
    ensures RunCorrected(input, output, discovered, load).Ok?
    ensures PlansEveryPage(RunCorrected(input, output, discovered, load).value, NewCorrected(input, output), discovered, load)
  {
    var fp := NewCorrected(input, output);
    DiscoveredBelowRoot(input, discovered);
    assert forall i :: 0 <= i < |discovered| ==> fp.rootDir < discovered[i] by {
      forall i | 0 <= i < |discovered| ensures fp.rootDir < discovered[i] {
        assert discovered[i] in discovered;
      }
    }
    RunWithPlansEveryPage(fp, discovered, load);
  }

  /** `main` as written does the same when the input holds no `?` or `[`;
      `RunStopsOnQuestionMark` shows it can fail otherwise. */
  lemma {:induction false} RunPlansEveryPage<T>(input: Path, output: Path, discovered: seq<Path>, load: Path -> Option<T>)
    requires OnlyStarWildcards(input)
    requires forall i :: 0 <= i < |discovered| ==>
               Matches(MakeRecursive(input), discovered[i]) && ValidPath(discovered[i]) && HasExtension(discovered[i])
    requires forall i :: 0 <= i < |discovered| && IsMetadata(discovered[i]) ==> load(discovered[i]).Some?
    ensures Run(input, output, discovered, load).Ok?
    ensures PlansEveryPage(Run(input, output, discovered, load).value, New(input, output), discovered, load)
  {
    NewAgrees(input, output);
    RunCorrectedPlansEveryPage(input, output, discovered, load);
  }
}
