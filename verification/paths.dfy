/** A Unix path in the component view of Rust's `std::path::Path`: whether it
    starts at the root, then its normal components in order. Only the
    operations the CSV sink uses are modelled: `file_name`, the stem/extension
    split, `pop`, `push`, `with_extension` and `with_file_name`. */
module Paths {
  import opened Wrappers
  import Text

  /** A normal component: non-empty, free of the separator, and neither `.`
      nor `..` (those are not normal components in Rust). */
  predicate IsNormalComponent(s: string)
  {
    |s| > 0 && '/' !in s && s != "." && s != ".."
  }

  type Component = s: string | IsNormalComponent(s) witness "a"

  datatype Path = Path(absolute: bool, components: seq<Component>)

  /** `Path::file_name`: the last component, if there is one. */
  function FileName(p: Path): Option<Component>
  {
    if |p.components| == 0 then None else Some(p.components[|p.components| - 1])
  }

  /** Rust's `rsplit_file_at_dot`: the name is cut at its last `.` into stem
      and extension, except that a name whose only `.` is its first character
      (a dot file such as `.profile`) is all stem. Only normal components
      reach it: Rust treats `..` apart, and it is no file name. */
  function SplitAtDot(name: Component): (r: (string, Option<string>))
    ensures r.0 + (if r.1.Some? then "." + r.1.value else "") == name
    ensures r.1.None? <==> '.' !in name[1..]
    ensures r.1.Some? ==> '.' !in r.1.value
    ensures r.0 <= name && |r.0| > 0
  {
    match Text.LastIndexOf(name, '.')
    case None => (name, None)
    case Some(i) =>
      if i == 0 then
        assert name[1..] == name[i + 1..];
        (name, None)
      else
        assert name[i] in name[1..];
        (name[..i], Some(name[i + 1..]))
  }

  /** `Path::file_stem` of a file name: never empty, a prefix of the name, and
      the whole name when there is no `.` past its first character. */
  function FileStem(name: Component): (r: string)
    ensures 0 < |r| && r <= name
    ensures '.' !in name[1..] ==> r == name
  {
    SplitAtDot(name).0
  }

  /** `Path::extension` of a file name: present exactly when a `.` follows the
      first character, and then the dot-free rest after the stem and a `.`. */
  function Extension(name: Component): (r: Option<string>)
    ensures r.None? <==> '.' !in name[1..]
    ensures r.Some? ==> '.' !in r.value && name == FileStem(name) + "." + r.value
  {
    SplitAtDot(name).1
  }

  /** `PathBuf::pop`: drop the last component; a path with none is left alone. */
  function Pop(p: Path): (r: Path)
    ensures r.absolute == p.absolute && r.components <= p.components
    ensures |p.components| > 0 ==> |r.components| == |p.components| - 1
    ensures |p.components| == 0 ==> r == p
  {
    if |p.components| == 0 then p
    else Path(p.absolute, p.components[..|p.components| - 1])
  }

  /** `PathBuf::push` on Unix: an absolute path replaces the whole buffer, a
      relative one is appended component by component. */
  function Push(p: Path, q: Path): Path
  {
    if q.absolute then q else Path(p.absolute, p.components + q.components)
  }

  /** The file name that `set_extension` builds from `name`: its stem, a dot,
      and the new extension. */
  function ReplaceExtension(name: Component, ext: string): Component
    requires |ext| > 0 && '/' !in ext
  {
    DottedComponent(FileStem(name), name, ext);
    FileStem(name) + "." + ext
  }

  /** A non-empty prefix of a component, a dot and a non-empty extension free
      of `/` make a component again. */
  lemma DottedComponent(stem: string, name: Component, ext: string)
    requires 0 < |stem| && stem <= name && |ext| > 0 && '/' !in ext
    ensures IsNormalComponent(stem + "." + ext)
  {
    var r := stem + "." + ext;
    forall k | 0 <= k < |r|
      ensures r[k] != '/'
    {
      if k < |stem| {
        assert r[k] == name[k];
      } else if k > |stem| {
        assert r[k] == ext[k - |stem| - 1];
      }
    }
  }

  /** Setting an extension that has no `.` on a non-empty stem and reading it
      back gives the same stem and that extension. */
  lemma AppendExtension(stem: string, ext: string)
    requires |stem| > 0 && '.' !in ext && IsNormalComponent(stem + "." + ext)
    ensures SplitAtDot(stem + "." + ext) == (stem, Some(ext))
  {
    var r := stem + "." + ext;
    assert r[|stem| + 1..] == ext;
    Text.LastIndexOfUnique(r, '.', |stem|);
    assert r[..|stem|] == stem;
  }

  /** `Path::with_extension`: the same path with the last component's extension
      replaced (or added); a path without a file name is returned unchanged. */
  function WithExtension(p: Path, ext: string): (r: Path)
    requires |ext| > 0 && '/' !in ext
    ensures r.absolute == p.absolute && |r.components| == |p.components|
    ensures Pop(r) == Pop(p)
    ensures match FileName(p)
            case None => r == p
            case Some(name) => FileName(r) == Some(FileStem(name) + "." + ext)
  {
    match FileName(p)
    case None => p
    case Some(name) =>
      var dir := p.components[..|p.components| - 1];
      var r := Path(p.absolute, dir + [ReplaceExtension(name, ext)]);
      assert r.components[..|r.components| - 1] == dir;
      r
  }

  /** `Path::with_file_name`: drop the current file name, if any, then push
      `name`. An absolute `name` replaces the path; a relative one lands under
      the parent directory with all of its components, and its file name
      becomes the file name of the result. */
  function WithFileName(p: Path, name: Path): (r: Path)
    ensures name.absolute ==> r == name
    ensures !name.absolute ==> r.absolute == p.absolute
    ensures !name.absolute ==> r.components == Pop(p).components + name.components
    ensures !name.absolute && FileName(name).Some? ==> FileName(r) == FileName(name)
  {
    Push(if FileName(p).Some? then Pop(p) else p, name)
  }

  // ---------------------------------------------------------------------------
  // Properties

  /** A path with a file name is its directory followed by that name. */
  lemma DirectoryAndName(p: Path)
    requires FileName(p).Some?
    ensures p.components == Pop(p).components + [FileName(p).value]
  {
  }

  /** Pushing one component and popping it again gives back the path. */
  lemma PopAfterPush(p: Path, c: Component)
    ensures Pop(Push(p, Path(false, [c]))) == p
  {
    assert (p.components + [c])[..|p.components|] == p.components;
  }

  /** Given a single component, `with_file_name` swaps the file name and keeps
      the directory: the case the method is designed for. */
  lemma WithFileNameOneComponent(p: Path, c: Component)
    requires FileName(p).Some?
    ensures Pop(WithFileName(p, Path(false, [c]))) == Pop(p)
    ensures FileName(WithFileName(p, Path(false, [c]))) == Some(c)
  {
    PopAfterPush(Pop(p), c);
  }
}
