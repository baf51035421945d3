/** The ways a run of the site generator stops before it has planned every page.
    Each failure records the file that caused it, so that the lemmas can say
    which file stops a run; the program's own panic and error messages do not
    name it. */
module Errors {
  import opened Paths

  datatype Failure =
    /** `extension().unwrap()` panics on a discovered file without an extension. */
    | MissingExtension(file: Path)
    /** Opening, reading, UTF-8 decoding or TOML decoding a metadata file failed; each is an `unwrap` panic. */
    | UnreadableMetadata(file: Path)
    /** `strip_prefix(root_dir).unwrap()` panics on a metadata file outside the root directory. */
    | MetadataOutsideRoot(file: Path)
    /** `to_output` returned its `StripPrefixError` for a page outside the root directory, and `?` ended `main`. */
    | OutsideRoot(file: Path)
}
