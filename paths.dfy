/** The parts of `std::path::Path` the application relies on, for paths
    written with '/' separators. */
module Paths {
  import opened Wrappers
  import Text

  /** Index just past the last '/' of `p` (0 when there is none). */
  function NameStart(p: string): (k: nat)
    ensures k <= |p|
    ensures k > 0 ==> p[k - 1] == '/'
    ensures forall j :: k <= j < |p| ==> p[j] != '/'
  {
    if p == [] then 0
    else if p[|p| - 1] == '/' then |p|
    else NameStart(p[..|p| - 1])
  }

  /** The final component of `p`. */
  function FileName(p: string): (r: string)
    ensures '/' !in r
  {
    p[NameStart(p)..]
  }

  /** Index of the last '.' of `s`, if any. */
  function LastDot(s: string): (r: Option<nat>)
    ensures r.Some? ==> r.value < |s| && s[r.value] == '.'
    ensures r.Some? ==> forall j :: r.value < j < |s| ==> s[j] != '.'
    ensures r.None? ==> '.' !in s
  {
    if s == [] then None
    else if s[|s| - 1] == '.' then Some(|s| - 1)
    else LastDot(s[..|s| - 1])
  }

  /** `Path::extension`: the text after the last '.' of the file name,
      except that a name whose only dot leads it (".profile") and the name
      ".." have none. */
  function Extension(p: string): (r: Option<string>)
    ensures r.Some? ==> '.' !in r.value && '/' !in r.value
  {
    var name := FileName(p);
    if name == ".." then None
    else
      match LastDot(name)
      case None => None
      case Some(i) => if i == 0 then None else Some(name[i + 1..])
  }

  /** `Path::join` of a relative component. */
  function Join(dir: string, name: string): (r: string)
    ensures Text.StartsWith(r, dir + "/")
  {
    dir + "/" + name
  }

  /** The extension of a joined name is the extension of the name. */
  lemma ExtensionOfJoin(dir: string, stem: string, ext: string)
    requires '/' !in stem && '/' !in ext && '.' !in ext && stem != [] && stem != "."
    ensures Extension(Join(dir, stem + "." + ext)) == Some(ext)
  {
    var p := Join(dir, stem + "." + ext);
    var name := stem + "." + ext;
    assert p == (dir + "/") + name;
    NameStartOfSuffix(dir + "/", name);
    assert FileName(p) == name;
    LastDotOf(stem, ext);
    assert name != "..";
  }

  lemma {:induction false} NameStartOfSuffix(pre: string, name: string)
    requires pre != [] && pre[|pre| - 1] == '/' && '/' !in name
    ensures NameStart(pre + name) == |pre|
    decreases |name|
  {
    var p := pre + name;
    if name == [] {
      assert p == pre;
    } else {
      assert name[|name| - 1] in name;
      assert p[..|p| - 1] == pre + name[..|name| - 1];
      NameStartOfSuffix(pre, name[..|name| - 1]);
    }
  }

  lemma LastDotOf(stem: string, ext: string)
    requires '.' !in ext
    ensures LastDot(stem + "." + ext) == Some(|stem|)
  {
    assert (stem + "." + ext)[|stem|] == '.';
  }
}
