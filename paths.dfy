/** The pieces of Rust's `std::path::Path` the backend uses on app paths:
    `file_name`, `file_stem` and `extension`, on `/`-separated paths. */
module Paths {
  import opened Text

  /** Index of the last `c` in `s`. */
  function LastIndexOf(s: string, c: char): (r: Option<nat>)
    ensures r.None? ==> c !in s
    ensures r.Some? ==> r.value < |s| && s[r.value] == c && c !in s[r.value + 1..]
  {
    if s == [] then None
    else if s[|s| - 1] == c then Some(|s| - 1)
    else match LastIndexOf(s[..|s| - 1], c)
      case None => None
      case Some(i) =>
        assert s[i + 1..] == s[..|s| - 1][i + 1..] + [s[|s| - 1]];
        Some(i)
  }

  /** The last occurrence of `c` is the one just after `a` when `b` holds none. */
  lemma {:induction false} LastIndexOfSplit(a: string, c: char, b: string)
    requires c !in b
    ensures LastIndexOf(a + [c] + b, c) == Some(|a|)
    decreases |b|
  {
    var s := a + [c] + b;
    if b != [] {
      assert s[|s| - 1] == b[|b| - 1];
      assert s[..|s| - 1] == a + [c] + b[..|b| - 1];
      LastIndexOfSplit(a, c, b[..|b| - 1]);
    }
  }

  /** `Path::components` ignores separators at the end and a `.` component
      that is not at the start: `a/b/`, `a/b/.` and `a/b` all end in `b`. */
  function StripTrailingSeparators(p: string): (r: string)
    ensures r <= p
    ensures r != [] ==> r[|r| - 1] != '/'
    ensures |r| >= 2 ==> !(r[|r| - 2] == '/' && r[|r| - 1] == '.')
    decreases |p|
  {
    if p != [] && p[|p| - 1] == '/' then StripTrailingSeparators(p[..|p| - 1])
    else if |p| >= 2 && p[|p| - 2] == '/' && p[|p| - 1] == '.' then StripTrailingSeparators(p[..|p| - 2])
    else p
  }

  /** `name` is the last `/`-separated component of `p`: a suffix of `p`
      that is all of `p` or follows a `/`. */
  predicate IsLastComponent(name: string, p: string) {
    && |name| <= |p|
    && p[|p| - |name|..] == name
    && (|name| == |p| || p[|p| - |name| - 1] == '/')
  }

  /** A path (after `StripTrailingSeparators`) whose last component is not a
      name: the path is empty, or it ends in `.` on its own or in `..`. */
  predicate EndsWithoutName(p: string) {
    || p == [] || p == "." || p == ".."
    || (|p| >= 3 && p[|p| - 3] == '/' && p[|p| - 2] == '.' && p[|p| - 1] == '.')
  }

  /** `Path::file_name`: the last component, unless the path ends in the root,
      in `.` on its own or in `..`. */
  function FileName(path: string): (r: Option<string>)
    ensures r.Some? ==> r.value != [] && '/' !in r.value && r.value != "." && r.value != ".."
  {
    var p := StripTrailingSeparators(path);
    var name := match LastIndexOf(p, '/')
      case None => p
      case Some(i) => p[i + 1..];
    if name == [] || name == "." || name == ".." then None else Some(name)
  }

  /** What `FileName` picks: the last component of the path once trailing
      separators are gone, and nothing exactly when that component is
      missing, `.` or `..`. */
  lemma FileNameIsLastComponent(path: string)
    ensures FileName(path).Some? ==> IsLastComponent(FileName(path).value, StripTrailingSeparators(path))
    ensures FileName(path).None? <==> EndsWithoutName(StripTrailingSeparators(path))
  {
    var p := StripTrailingSeparators(path);
    match LastIndexOf(p, '/')
    case None =>
      assert |p| >= 3 ==> p[|p| - 3] != '/';
    case Some(i) =>
      LastComponentAfterSlash(p, i);
  }

  /** The component after the last `/` of a path without trailing
      separators: never empty, never `.`, and `..` exactly when the path ends
      in `/..`. */
  lemma LastComponentAfterSlash(p: string, i: int)
    requires 0 <= i < |p| && p[i] == '/' && '/' !in p[i + 1..]
    requires p[|p| - 1] != '/'
    requires |p| >= 2 ==> !(p[|p| - 2] == '/' && p[|p| - 1] == '.')
    ensures IsLastComponent(p[i + 1..], p)
    ensures p[i + 1..] != [] && p[i + 1..] != "."
    ensures p[i + 1..] == ".." <==> (|p| >= 3 && p[|p| - 3] == '/' && p[|p| - 2] == '.' && p[|p| - 1] == '.')
  {
    var name := p[i + 1..];
    assert p[|p| - |name|..] == name;
    assert forall k :: i < k < |p| ==> p[k] != '/' by {
      forall k | i < k < |p| ensures p[k] != '/' {
        assert p[k] == name[k - i - 1];
      }
    }
  }

  /** `rsplit_file_at_dot`: a name splits at its last `.` into stem and
      extension, except that a name whose only `.` is its first character
      (`.profile`) is all stem. */
  function SplitAtLastDot(name: string): (r: (string, Option<string>))
    ensures r.1.None? ==> r.0 == name && (|name| <= 1 || '.' !in name[1..])
    ensures r.1.Some? ==> name == r.0 + "." + r.1.value && r.0 != [] && '.' !in r.1.value
  {
    match LastIndexOf(name, '.')
    case None => (name, None)
    case Some(i) =>
      if i == 0 then
        assert name[1..] == name[i + 1..];
        (name, None)
      else
        assert name == name[..i] + "." + name[i + 1..];
        (name[..i], Some(name[i + 1..]))
  }

  /** `Path::file_stem`. */
  function FileStem(path: string): Option<string> {
    match FileName(path)
    case None => None
    case Some(name) => Some(SplitAtLastDot(name).0)
  }

  /** `Path::extension`. */
  function Extension(path: string): Option<string> {
    match FileName(path)
    case None => None
    case Some(name) => SplitAtLastDot(name).1
  }

  /** The extension test of `is_valid_app_bundle_path`: `app` in any ASCII case. */
  predicate HasAppExtension(path: string) {
    match Extension(path)
    case Some(ext) => EqIgnoreCase(ext, "app")
    case None => false
  }

  /** `bundle_name_from_app_path`: the file stem (`to_str` cannot fail on a
      Dafny string). */
  function BundleNameFromAppPath(path: string): (r: Option<string>)
    ensures r.None? <==> FileName(path).None?
    ensures r.Some? ==> r.value != [] && '/' !in r.value && r.value <= FileName(path).value
  {
    FileStem(path)
  }

  /** The bundle name of `<dir>/<name>.app` is `name`, and such a path has the
      `.app` extension that registration demands. */
  lemma {:induction false} BundleNameOfAppBundle(dir: string, name: string)
    requires name != [] && '/' !in name
    ensures BundleNameFromAppPath(dir + "/" + name + ".app") == Some(name)
    ensures HasAppExtension(dir + "/" + name + ".app")
  {
    var file := name + ".app";
    var path := dir + "/" + name + ".app";
    assert path == dir + ['/'] + file;
    assert path[|path| - 1] == 'p' && path[|path| - 2] == 'p';
    assert StripTrailingSeparators(path) == path;
    assert '/' !in file by {
      assert forall k :: 0 <= k < |file| ==> file[k] == if k < |name| then name[k] else ".app"[k - |name|];
    }
    LastIndexOfSplit(dir, '/', file);
    assert path[|dir| + 1..] == file;
    assert FileName(path) == Some(file);
    assert '.' !in "app";
    assert file == name + ['.'] + "app";
    LastIndexOfSplit(name, '.', "app");
    assert file[..|name|] == name;
    assert file[|name| + 1..] == "app";
    assert SplitAtLastDot(file) == (name, Some("app"));
  }

  /** lib.rs:592-596: the bundle name of `/Applications/Companion.app`. */
  lemma DerivesBundleNameFromPath()
    ensures BundleNameFromAppPath("/Applications/Companion.app") == Some("Companion")
  {
    assert "/Applications/Companion.app" == "/Applications" + "/" + "Companion" + ".app";
    BundleNameOfAppBundle("/Applications", "Companion");
  }
}
