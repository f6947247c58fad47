/** Node's POSIX `path.extname`, which both the upload filter and the vision client apply. */
module Paths {
  import opened Optional
  import opened Strings

  /** `p` without its trailing run of '/' characters. */
  function StripTrailingSlashes(p: string): (r: string)
    ensures |r| <= |p| && r == p[..|r|]
    ensures r == [] || r[|r| - 1] != '/'
    ensures forall k :: |r| <= k < |p| ==> p[k] == '/'
    decreases |p|
  {
    if |p| > 0 && p[|p| - 1] == '/' then StripTrailingSlashes(p[..|p| - 1]) else p
  }

  /** The last path component: what follows the last '/' once trailing slashes are dropped. */
  function BaseName(p: string): (r: string)
    ensures '/' !in r
  {
    var q := StripTrailingSlashes(p);
    match LastIndexOfChar(q, '/')
    case None => q
    case Some(k) => q[k + 1..]
  }

  /** `path.extname(p)`: the last component from its last '.' on, or "" when that component
      has no '.', starts with its only leading dot run ending there, or is "..". */
  function ExtName(p: string): (r: string)
    ensures r == [] || r[0] == '.'
  {
    ExtNameOfBase(BaseName(p))
  }

  /** The extension of one path component. */
  function ExtNameOfBase(base: string): (r: string)
    ensures r == [] || r[0] == '.'
  {
    match LastIndexOfChar(base, '.')
    case None => ""
    case Some(d) => if d == 0 || base == ".." then "" else base[d..]
  }

  /** The last component of `dir + name` is `name` when `dir` is empty or ends in '/'. */
  lemma BaseNameOfFileName(dir: string, name: string)
    requires dir == [] || dir[|dir| - 1] == '/'
    requires |name| > 0 && '/' !in name
    ensures BaseName(dir + name) == name
  {
    var p := dir + name;
    assert p[|p| - 1] == name[|name| - 1];
    assert StripTrailingSlashes(p) == p;
    assert forall i :: |dir| <= i < |p| ==> p[i] == name[i - |dir|];
    assert dir != [] ==> p[|dir| - 1] == '/';
    match LastIndexOfChar(p, '/') {
    case None =>
      assert p == name;
    case Some(k) =>
      assert k < |dir|;
      assert p[|dir| - 1] == '/';
      assert k == |dir| - 1;
      assert p[k + 1..] == name;
    }
  }

  /** The last '.' of `stem + "." + ext` is the one between them when `ext` has none. */
  lemma LastDotOfFileName(stem: string, ext: string)
    requires '.' !in ext
    ensures LastIndexOfChar(stem + "." + ext, '.') == Some(|stem|)
    ensures (stem + "." + ext)[|stem|..] == "." + ext
  {
    var base := stem + "." + ext;
    assert base == stem + ("." + ext);
    assert base[|stem|..] == "." + ext;
    forall j | |stem| < j < |base| ensures base[j] != '.' {
      assert base[j] == ("." + ext)[j - |stem|] == ext[j - |stem| - 1];
    }
    LastIndexOfCharAt(base, '.', |stem|);
  }

  /** A component `stem + "." + ext` whose `ext` has no '.' has extension `"." + ext`. */
  lemma ExtNameOfStem(stem: string, ext: string)
    requires |stem| > 0 && |ext| > 0 && '.' !in ext
    ensures ExtNameOfBase(stem + "." + ext) == "." + ext
  {
    LastDotOfFileName(stem, ext);
    assert |stem + "." + ext| > 2;
  }

  /** A file stored as `dir + stem + "." + ext` has extension `"." + ext`. */
  lemma ExtNameOfFileName(dir: string, stem: string, ext: string)
    requires dir == [] || dir[|dir| - 1] == '/'
    requires |stem| > 0 && '/' !in stem
    requires |ext| > 0 && '.' !in ext && '/' !in ext
    ensures ExtName(dir + (stem + "." + ext)) == "." + ext
  {
    NoSlashInFileName(stem, ext);
    BaseNameOfFileName(dir, stem + "." + ext);
    ExtNameOfStem(stem, ext);
  }

  lemma NoSlashInFileName(stem: string, ext: string)
    requires '/' !in stem && '/' !in ext
    ensures '/' !in stem + "." + ext
  {
  }
}
