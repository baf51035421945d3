# roxy-cli path algebra, in Dafny

A model of the planning half of the `roxy` static site generator's command
line driver (`src/main.rs`): how the input path, which may hold glob
wildcards, is turned into a search pattern and a root directory; how each
discovered file is classified as metadata (`.toml`) or content; how the
metadata files become the dotted keys of the template context; and how every
content file is given the `.html` output path its page is written to.

Paths are sequences of normal components (`Paths.Path`); a path's text is its
components joined by `/`. Decoded TOML tables are an opaque type parameter
`T`, and reading plus decoding a metadata file is a parameter
`load: Path -> Option<T>` (`None` for any of the four `unwrap` panics). The
files the glob finds are a parameter `discovered`; the `Glob` module states
which paths the search pattern matches, so that the lemmas can assume only
what discovery promises.

Modules, one per file: `Results` (option and result types), `Strings`
(`split`, `join`, `trim_start_matches`, last index), `Sequences` (order-keeping
filter and `Iterator::partition`), `Paths` (`strip_prefix`, `extension`,
`file_stem`, `with_extension`), `Glob` (pattern matching), `Errors` (the ways a
run stops), `Resolver` (`FilePath`), `Contexts` (`Context` and the metadata
loop), `Driver` (`main` up to rendering).

Three facts about the code shape the model:

- A discovered file without an extension is not content: `extension().unwrap()`
  panics on it (`Driver.PartitionSelects`).
- Errors are not per-file: a metadata file that cannot be read, decoded or
  placed under the root directory panics, and a content file outside the
  root directory ends `main` through `?` (`Driver.RunFailsAtFirstObstacle`).
  Only rendering failures are dropped.
- `has_no_wildcard` looks only for `*`, while the glob crate also treats `?`
  and `[` as metacharacters. `Resolver.New` and `Driver.Run` keep this
  behaviour; `Resolver.NewCorrected` and `Driver.RunCorrected` use the root
  with none of the three, and the Findings section shows where the two differ.

## Model

| member | source | states |
|---|---|---|
| Resolver.MakeRecursive | src/main.rs:87-89 | the search pattern is the input followed by exactly two more components |
| Resolver.PatternMatchesExactlyBelow | src/main.rs:87-89 | for an input without glob metacharacters, the pattern matches a path exactly when the path lies strictly below the input |
| Glob.AnyDepthMatches | src/main.rs:88 | the joined suffix `**` then `*` matches exactly the non-empty relative paths |
| Resolver.StripWildcards | src/main.rs:91-102 | the root is an ancestor of the input whose text has no `*`; every deeper ancestor has one; an input without `*` is its own root |
| Resolver.StripWildcardsIsConcretePrefix | src/main.rs:95-102 | the ancestor walk keeps exactly the components before the first one holding `*` |
| Resolver.StripWildcardsExamples | src/main.rs:95-102 | `site/posts/*/index.md` is rooted at `site/posts`, and `site` at itself |
| Resolver.ConcreteRoot | src/main.rs:95-102 | corrected root: an ancestor whose text has no `*`, `?` or `[`, with every deeper ancestor holding one |
| Resolver.ConcreteRootAgrees | src/main.rs:91-102 | without `?` and `[` in the input, the corrected root and the root as written coincide |
| Resolver.MatchesLieBelowConcreteRoot | src/main.rs:140-141 | every path the search pattern matches lies strictly below the corrected root, whatever wildcards the input holds |
| Resolver.New | src/main.rs:79-85 | the pattern is the recursive input, the root is the deepest ancestor of the input whose text has no `*`, and the output root is kept |
| Resolver.NewCorrected | src/main.rs:79-85 | as `New`, but the root is the deepest ancestor of the input whose text has no `*`, `?` or `[` |
| Resolver.NewAgrees | src/main.rs:79-102 | for an input without `?` and `[`, `FilePath::new` as written and the corrected one give the same paths |
| Paths.StripPrefix | src/main.rs:107 | succeeds exactly when the base is a component-wise prefix, and base plus result is the path |
| Resolver.ToOutput | src/main.rs:104-110 | succeeds exactly when the root directory is a prefix of the path; the result is the output root followed by the relative part; otherwise it fails with `OutsideRoot` |
| Resolver.ToOutputRoundTrip | src/main.rs:104-110 | a path at some relative place below the root lands at the same relative place below the output root, and stripping the output root gives that place back |
| Resolver.ToOutputFromEmptyRoot | src/main.rs:101-110 | with an empty root every path is moved whole under the output root |
| Resolver.MatchedFilesHaveOutputsCorrected | src/main.rs:104-110 | with the corrected root, every file the pattern matches has an output path |
| Resolver.MatchedFilesHaveOutputs | src/main.rs:79-110 | with the root as written and an input without `?` or `[`, every file the pattern matches has an output path |
| Resolver.StripWildcardsKeepsQuestionMark | src/main.rs:91-102 | for `site/p?sts` the root as written is the whole input, the pattern matches `site/posts/a.md`, and that page has no output path; the corrected root places it at `out/posts/a.html` |
| Paths.SplitNameParts | src/main.rs:143 | stem and extension put together give the name; the extension has no dot and follows a non-empty stem; without extension the name is all stem |
| Paths.SplitNameOfText | src/main.rs:143 | a non-empty stem and a dot-free extension are cut apart again |
| Paths.WithExtensionSetsExtension | src/main.rs:165 | renaming with a non-empty dot-free extension gives that extension and keeps the stem |
| Paths.WithoutExtensionKeepsStem | src/main.rs:128 | `with_extension("")` leaves the stem as the last component |
| Paths.WithExtensionKeepsValid | src/main.rs:165 | renaming keeps every component a normal one |
| Strings.SplitAvoidsSeparator | src/main.rs:130 | no part of a split holds the separator |
| Strings.JoinSplit | src/main.rs:129-130 | joining the parts of a split with the separator gives back the text |
| Strings.SplitJoin | src/main.rs:129-130 | splitting the text of separator-free parts gives back the parts |
| Strings.TrimStartSpec | src/main.rs:133 | the trimmed text is a suffix, everything cut is the trimmed character, and the rest does not start with it |
| Contexts.DotFoldIsDottedJoin | src/main.rs:131 | the fold is the start, a dot, and the parts joined by dots |
| Contexts.Key | src/main.rs:125-133 | a key holds no separator and does not start with a dot |
| Contexts.KeyIsDottedStem | src/main.rs:126-133 | the key is the extension-less components joined by dots, less any leading dots |
| Contexts.KeyOfPlainPath | src/main.rs:126-133 | without hidden components the key is exactly the extension-less components joined by dots |
| Contexts.KeyOfNestedFile | src/main.rs:125-133 | `dir/stem.toml` is filed under `dir.stem` |
| Contexts.KeyOfTopFile | src/main.rs:125-133 | `stem.toml` at the root is filed under `stem` |
| Contexts.KeyExamples | src/main.rs:125-133 | `blog/post1.toml` is filed under `blog.post1` and `meta.toml` under `meta` |
| Contexts.KeysCollide | src/main.rs:125-133 | `a/b.toml` and `a.b.toml` are filed under the same key `a.b` |
| Contexts.Insert | src/main.rs:125-134 | the table is stored under the path's key, replacing what was there, and every other key keeps its table |
| Contexts.BuildStopsAtFirstUnusable | src/main.rs:145-155 | the metadata loop fails exactly when some file cannot be loaded or lies outside the root, and then with the first such file's panic, loading checked before placing |
| Contexts.Entries | src/main.rs:146-155 | each usable metadata file contributes its loaded table under the key of its path relative to the root, in order |
| Contexts.BuildInsertsEntries | src/main.rs:145-155 | with every metadata file usable, the loop inserts their entries one after another |
| Contexts.InsertAllKeys | src/main.rs:146-155 | inserting entries adds exactly their keys |
| Contexts.InsertAllKeepsOthers | src/main.rs:146-155 | a key no entry has keeps its table |
| Contexts.InsertAllLastWins | src/main.rs:146-155 | an entry whose key no later entry shares has its table in the result |
| Contexts.BuildHoldsLastTables | src/main.rs:145-155 | the built context has exactly the metadata keys, and under each key the table of the last file with that key |
| Sequences.FilterSplits | src/main.rs:142-143 | a test and its negation put every element in exactly one of the two selections |
| Sequences.PartitionSpec | src/main.rs:142-143 | the partition with a partial test succeeds exactly when the test is defined on every element, then yields the two order-keeping selections; otherwise it stops at the first undefined element |
| Driver.PartitionSelects | src/main.rs:142-143 | the partition succeeds exactly when every file has an extension, giving the `.toml` files and the others in discovery order, every file in exactly one; otherwise the first file without an extension panics |
| Driver.PlanPages | src/main.rs:164-167 | the page loop succeeds exactly when every `.html` path lies below the root, otherwise fails with the first that does not; on success one page per content file, in order, with the output path `to_output` gives |
| Driver.PlannedPageIsHtmlBelowOutput | src/main.rs:164-166 | a planned page is an `.html` file strictly below the output root, at the content file's relative place |
| Driver.RunFailsAtFirstObstacle | src/main.rs:141-169 | for any resolved paths, the run fails at the first obstacle in program order (file without extension, unusable metadata, page outside the root directory) and succeeds exactly when there is none |
| Driver.RunStopsOnQuestionMark | src/main.rs:140-166 | as written, for the input `site/p?sts` the pattern finds `site/posts/a.md` and the run fails because `site/posts/a.html` is outside the root |
| Driver.RunCorrectedPlacesQuestionMark | src/main.rs:140-166 | the corrected run on the same input succeeds with an empty context and the page `out/posts/a.html` |
| Driver.RunWithPlansEveryPage | src/main.rs:141-169 | when every discovered file lies strictly below the root directory, has an extension, and every metadata file loads, the run succeeds with the context of the metadata entries and one `.html` page per content file at its relative place below the output root |
| Driver.RunCorrectedPlansEveryPage | src/main.rs:137-170 | with the corrected root, when every discovered file matches the pattern and has an extension and metadata loads, the run succeeds and plans every page as above |
| Driver.RunPlansEveryPage | src/main.rs:137-170 | `main` as written does the same for an input without `?` or `[` |

## Left out

- Argument parsing (src/main.rs:14-22) and the error conversions (src/main.rs:24-55): the input and output are parameters, and a failure is a `Failure` value.
- `get_files` (src/main.rs:57-69): the glob expansion, the `is_file` filter and the silent dropping of unreadable entries are filesystem work; the discovered files are a parameter, and `Glob.Matches` states which paths the pattern can yield. A malformed pattern (`PatternError`) and a non-UTF-8 input path are not modelled.
- Glob.Matches: bracket classes `[...]` and the glob crate's options are not modelled; `[` only counts as a metacharacter for the corrected root.
- Reading, UTF-8 decoding and TOML parsing of metadata (src/main.rs:147-152): replaced by the `load` parameter.
- Rendering (src/main.rs:158-166): the Markdown and template processors and `Roxy::process_file` are outside this model; their result is dropped by the source, so the model plans the pages and stops there. When a content file lies outside the root directory, the program has already written the pages of every earlier content file, because src/main.rs:164-166 alternates `to_output` and `process_file`; the `Err` of `Driver.PlanPages` does not carry those pages.
- Operating-system path details: only the Unix separator `/` is modelled (on Windows `MAIN_SEPARATOR_STR` at src/main.rs:130 and the glob results use `\`); absolute paths, `.` and `..` components, repeated separators, non-UTF-8 text and `to_string_lossy` replacement characters. Paths are given already split into normal components.
- Resolver.StripWildcards: the `PathBuf::new()` fallback of src/main.rs:101 is never reached for relative paths, because the empty ancestor has no `*`; the `flatten` skip of non-UTF-8 ancestors is not modelled.
- The order in which the glob crate yields files is not modelled; every lemma holds for any discovery order.
- Errors.Failure: each failure records the file that caused it, so that the lemmas can say which file stops a run. The program's messages do not name it: `StripPrefixError` only says the prefix was not found, and the `unwrap` panics report the underlying error.
- Resolver.MatchedFilesHaveOutputs: proved only for inputs without `?` or `[`, because with them the root as written can miss matched files (`Resolver.StripWildcardsKeepsQuestionMark`); `Resolver.MatchedFilesHaveOutputsCorrected` holds for every input.
- Driver.RunPlansEveryPage: proved only for inputs without `?` or `[`, because with them `main` as written can stop with `OutsideRoot` or panic on a metadata file (`Driver.RunStopsOnQuestionMark`); `Driver.RunCorrectedPlansEveryPage` holds for every input.

## Findings

| source | as written | input that shows it | evidently intended | confidence | as-written member | corrected member |
|---|---|---|---|---|---|---|
| src/main.rs:91-102 | `has_no_wildcard` looks only for `*`, so the root keeps components that hold `?` or `[`, which the glob crate treats as metacharacters | input `site/p?sts`: the root is `site/p?sts`, the pattern matches `site/posts/a.md`, and `to_output` of `site/posts/a.html` fails, so `main` stops with `StripPrefixError` (`Driver.RunStopsOnQuestionMark`; a metadata file there would panic at src/main.rs:154) | the root is the deepest ancestor without any glob metacharacter, so every discovered file lies below it; the price is that a page under a directory literally named `p?sts` lands at `out/p?sts/a.html` where the code as written gives `out/a.html` | medium; not executed | Resolver.StripWildcardsKeepsQuestionMark | Driver.RunCorrectedPlansEveryPage |
