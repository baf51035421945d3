/** Relative paths as sequences of components, with the parts of `std::path`
    that the site generator uses: text form, prefix stripping, file stems and
    extensions, and extension replacement. */
module Paths {
  import opened Results
  import opened Strings

  /** `std::path::MAIN_SEPARATOR` on Unix. */
  const Separator: char := '/'

  /** A relative path, as the sequence of its normal components. */
  type Path = seq<string>

  /** A normal component: non-empty, without a separator, and neither `.` nor `..`. */
  predicate ValidComponent(c: string) {
    |c| > 0 && Separator !in c && c != "." && c != ".."
  }

  predicate ValidPath(p: Path) {
    forall i :: 0 <= i < |p| ==> ValidComponent(p[i])
  }

  /** `Path::to_str`: the components with a separator between each two. */
  function Text(p: Path): string {
    Join(p, Separator)
  }

  /** `Path::strip_prefix`: the rest of `p` after `base`, when `base` is a
      component-wise prefix of `p`. */
  function StripPrefix(p: Path, base: Path): (r: Option<Path>)
    ensures r.Some? <==> base <= p
    ensures r.Some? ==> p == base + r.value
  {
    if base <= p then Some(p[|base|..]) else None
  }

  /** A file name cut at its last dot into a stem and an optional extension. */
  datatype FileName = FileName(stem: string, ext: Option<string>)

  /** The text a `FileName` stands for. */
  function NameText(f: FileName): string {
    match f.ext
    case None => f.stem
    case Some(e) => f.stem + "." + e
  }

  /** `Path::file_stem` and `Path::extension` on one component: the name is cut
      at its last dot, except that a name with no dot, or whose only dot leads
      (a hidden file such as `.env`), has no extension. */
  function SplitName(name: string): FileName {
    var i := LastIndexOf(name, '.');
    if i <= 0 then FileName(name, None) else FileName(name[..i], Some(name[i + 1..]))
  }

  /** The stem and the extension put back together give the name; an
      extension has no dot and follows a non-empty stem; a name without
      extension is all stem; and the stem is a non-empty start of a non-empty name. */
  lemma SplitNameParts(name: string)
    ensures NameText(SplitName(name)) == name
    ensures var f := SplitName(name);
            && (f.ext.Some? ==> '.' !in f.ext.value && |f.stem| > 0)
            && (f.ext.None? ==> f.stem == name)
            && f.stem <= name
            && (|name| > 0 ==> |f.stem| > 0)
            && (Separator !in name ==> Separator !in f.stem)
  {
    var i := LastIndexOf(name, '.');
    LastIndexOfSpec(name, '.');
    if i > 0 {
      assert name == name[..i] + "." + name[i + 1..];
      assert forall c :: c in name[..i] ==> c in name;
    }
  }

  /** A stem and a dot-free extension come back out of the name they make. */
  lemma SplitNameOfText(stem: string, ext: string)
    requires |stem| > 0 && '.' !in ext
    ensures SplitName(stem + "." + ext) == FileName(stem, Some(ext))
  {
    var name := stem + "." + ext;
    LastIndexOfAt(name, '.', |stem|);
    assert name[..|stem|] == stem;
    assert name[|stem| + 1..] == ext;
  }

  /** `Path::extension`: the extension of the last component, if any. */
  function Extension(p: Path): Option<string> {
    if |p| == 0 then None else SplitName(p[|p| - 1]).ext
  }

  /** `Path::file_stem`: the stem of the last component, if any. */
  function FileStem(p: Path): Option<string> {
    if |p| == 0 then None else Some(SplitName(p[|p| - 1]).stem)
  }

  /** The last component renamed to its stem followed by `ext`; an empty `ext`
      leaves the bare stem. */
  function Rename(name: string, ext: string): string {
    var stem := SplitName(name).stem;
    if ext == "" then stem else stem + "." + ext
  }

  /** `Path::with_extension`: the path with the extension of its last component
      replaced by `ext`, or removed when `ext` is empty. Only the last
      component changes. */
  function WithExtension(p: Path, ext: string): (r: Path)
    ensures |r| == |p|
    ensures |p| > 0 ==> r[..|p| - 1] == p[..|p| - 1]
  {
    if |p| == 0 then p
    else p[..|p| - 1] + [Rename(p[|p| - 1], ext)]
  }

  /** A non-empty, dot-free `ext` becomes the extension, and the stem stays. */
  lemma WithExtensionSetsExtension(p: Path, ext: string)
    requires |p| > 0 && |p[|p| - 1]| > 0 && ext != "" && '.' !in ext
    ensures Extension(WithExtension(p, ext)) == Some(ext)
    ensures FileStem(WithExtension(p, ext)) == FileStem(p)
  {
    var stem := SplitName(p[|p| - 1]).stem;
    SplitNameOfText(stem, ext);
    assert WithExtension(p, ext)[|p| - 1] == stem + "." + ext;
  }

  /** An empty `ext` leaves the bare stem as the last component. */
  lemma WithoutExtensionKeepsStem(p: Path)
    requires |p| > 0
    ensures Some(WithExtension(p, "")[|p| - 1]) == FileStem(p)
  {
  }

  /** Renaming with a separator-free extension keeps a path valid. */
  lemma WithExtensionKeepsValid(p: Path, ext: string)
    requires ValidPath(p) && ext != "" && Separator !in ext
    ensures ValidPath(WithExtension(p, ext))
  {
    var r := WithExtension(p, ext);
    if |p| > 0 {
      forall i | 0 <= i < |p|
        ensures ValidComponent(r[i])
      {
        if i < |p| - 1 {
          assert r[i] == r[..|p| - 1][i] == p[..|p| - 1][i];
        }
      }
    }
  }

  /** Every component of `WithExtension(p, "")` is free of separators when those of `p` are. */
  lemma StemPathHasNoSeparator(p: Path)
    requires ValidPath(p)
    ensures forall i :: 0 <= i < |p| ==> Separator !in WithExtension(p, "")[i]
  {
    var q := WithExtension(p, "");
    forall i | 0 <= i < |p|
      ensures Separator !in q[i]
    {
      if i < |p| - 1 {
        assert q[i] == q[..|p| - 1][i] == p[..|p| - 1][i];
      } else {
        WithoutExtensionKeepsStem(p);
      }
    }
  }
}
