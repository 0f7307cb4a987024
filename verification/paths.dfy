/**
 Where the module file is written: `os.path.join(root, name)` for the
 directory and `os.path.join(directory, version + ".lua")` for the file.
 */
module Paths {
  import opened Text

  /** The directory under which module files are written. */
  const ModuleRoot: string := "/packages/modulefiles/apps"

  /** Python's `os.path.join(a, b)` on POSIX: an absolute `b` replaces `a`;
      otherwise a `/` is put between them unless `a` is empty or already ends
      in `/`. */
  function JoinPath(a: string, b: string): (r: string)
    ensures |b| <= |r| && r[|r| - |b|..] == b
    ensures StartsWith(b, "/") ==> r == b
    ensures !StartsWith(b, "/") ==> StartsWith(r, a) && |a| + |b| <= |r| <= |a| + |b| + 1
    ensures !StartsWith(b, "/") && a != [] ==> r[|r| - |b| - 1] == '/'
    ensures !StartsWith(b, "/") && (a == [] || a[|a| - 1] == '/') ==> |r| == |a| + |b|
    ensures !StartsWith(b, "/") && a != [] && a[|a| - 1] != '/' ==> |r| == |a| + |b| + 1
  {
    if StartsWith(b, "/") then b
    else if a == [] || a[|a| - 1] == '/' then a + b
    else a + "/" + b
  }

  /** The contract of `JoinPath` admits exactly one result: any text meeting
      all of its clauses is the joined path. */
  lemma JoinPathPinned(a: string, b: string, r: string)
    requires |b| <= |r| && r[|r| - |b|..] == b
    requires StartsWith(b, "/") ==> r == b
    requires !StartsWith(b, "/") ==> StartsWith(r, a) && |a| + |b| <= |r| <= |a| + |b| + 1
    requires !StartsWith(b, "/") && a != [] ==> r[|r| - |b| - 1] == '/'
    requires !StartsWith(b, "/") && (a == [] || a[|a| - 1] == '/') ==> |r| == |a| + |b|
    requires !StartsWith(b, "/") && a != [] && a[|a| - 1] != '/' ==> |r| == |a| + |b| + 1
    ensures r == JoinPath(a, b)
  {
    if !StartsWith(b, "/") {
      if a == [] || a[|a| - 1] == '/' {
        assert r == r[..|a|] + r[|a|..];
      } else {
        assert r == r[..|a|] + [r[|a|]] + r[|a| + 1..];
      }
    }
  }

  /** The module's directory, `os.path.join(root, name)`. */
  function ModuleDirectory(root: string, name: string): string {
    JoinPath(root, name)
  }

  /** The module file, `os.path.join(ModuleDirectory(root, name), version + ".lua")`. */
  function ModuleFilePath(root: string, name: string, version: string): (r: string)
    ensures |version + ".lua"| <= |r| && r[|r| - |version + ".lua"|..] == version + ".lua"
    ensures !StartsWith(name, "/") && !StartsWith(version + ".lua", "/") ==> StartsWith(r, root)
  {
    var dir := ModuleDirectory(root, name);
    var r := JoinPath(dir, version + ".lua");
    PrefixOfPrefix(r, dir, root);
    r
  }

  /** Python's `os.path.basename(p)`: the text after the last `/`. */
  function BaseName(p: string): (r: string)
    ensures '/' !in r
    ensures |r| <= |p| && r == p[|p| - |r|..]
    ensures |r| == |p| || p[|p| - |r| - 1] == '/'
    decreases |p|
  {
    if p == [] || p[|p| - 1] == '/' then []
    else
      var r := BaseName(p[..|p| - 1]) + [p[|p| - 1]];
      assert p[..|p| - 1][|p| - |r|..] + [p[|p| - 1]] == p[|p| - |r|..];
      r
  }

  /** A path that ends in `/` followed by text without `/` has that text as
      its base name. */
  lemma {:induction false} BaseNameAfterSlash(dir: string, file: string)
    requires '/' !in file
    ensures BaseName(dir + "/" + file) == file
    decreases |file|
  {
    var p := dir + "/" + file;
    if file == [] {
      assert p[|p| - 1] == '/';
    } else {
      var init := file[..|file| - 1];
      assert p[..|p| - 1] == dir + "/" + init;
      assert '/' !in init by {
        assert forall c | c in init :: c in file;
      }
      BaseNameAfterSlash(dir, init);
      assert p[|p| - 1] == file[|file| - 1];
      assert init + [file[|file| - 1]] == file;
    }
  }

  /** For a non-empty module name without `/`, a version without `/` and a
      root without a trailing `/`, the file is `root/name/version.lua`, and
      its last path component is `version.lua`. */
  lemma ModuleFilePathLayout(root: string, name: string, version: string)
    requires root != [] && root[|root| - 1] != '/'
    requires name != [] && '/' !in name
    requires '/' !in version
    ensures ModuleFilePath(root, name, version) == root + "/" + name + "/" + version + ".lua"
    ensures BaseName(ModuleFilePath(root, name, version)) == version + ".lua"
  {
    NoSlashRelative(name);
    var dir := root + "/" + name;
    JoinRelative(root, name);
    assert dir[|dir| - 1] == name[|name| - 1];
    var file := version + ".lua";
    LuaFileNoSlash(version);
    NoSlashRelative(file);
    JoinRelative(dir, file);
    assert ModuleFilePath(root, name, version) == dir + "/" + file;
    BaseNameAfterSlash(dir, file);
  }

  /** Joining a relative component to a directory without a trailing `/`
      puts one `/` between them. */
  lemma JoinRelative(a: string, b: string)
    requires a != [] && a[|a| - 1] != '/' && !StartsWith(b, "/")
    ensures JoinPath(a, b) == a + "/" + b
  {
  }

  /** A non-empty text without `/` is a relative path. */
  lemma NoSlashRelative(b: string)
    requires b != [] && '/' !in b
    ensures !StartsWith(b, "/")
  {
    assert b[..1] == [b[0]];
  }

  /** The file name of a version without `/` holds no `/`. */
  lemma LuaFileNoSlash(version: string)
    requires '/' !in version
    ensures '/' !in version + ".lua"
  {
    var file := version + ".lua";
    assert forall i | 0 <= i < |file| :: file[i] == if i < |version| then version[i] else ".lua"[i - |version|];
  }

  /** An absolute module name discards the root: the file lands under the
      name itself. */
  lemma ModuleFilePathAbsoluteName(root: string, name: string, version: string)
    requires StartsWith(name, "/") && name[|name| - 1] != '/'
    requires version == [] || version[0] != '/'
    ensures ModuleFilePath(root, name, version) == name + "/" + version + ".lua"
  {
    var file := version + ".lua";
    assert file[0] != '/';
    assert !StartsWith(file, "/") by { assert file[..1] == [file[0]]; }
    assert ModuleDirectory(root, name) == name;
    assert JoinPath(name, file) == name + "/" + file;
    assert name + "/" + file == name + "/" + version + ".lua";
  }

  /** A relative module name that ends in `/`, such as `gcc/`, gets no second
      `/` before the file name. */
  lemma ModuleFilePathTrailingSlash(root: string, name: string, version: string)
    requires root != [] && root[|root| - 1] != '/'
    requires name != [] && name[0] != '/' && name[|name| - 1] == '/'
    requires version == [] || version[0] != '/'
    ensures ModuleFilePath(root, name, version) == root + "/" + name + version + ".lua"
  {
    assert !StartsWith(name, "/") by { assert name[..1] == [name[0]]; }
    var dir := root + "/" + name;
    JoinRelative(root, name);
    assert dir[|dir| - 1] == '/';
    var file := version + ".lua";
    assert file[0] != '/';
    assert !StartsWith(file, "/") by { assert file[..1] == [file[0]]; }
    assert ModuleFilePath(root, name, version) == dir + file;
    assert dir + file == root + "/" + name + version + ".lua";
  }

  /** An empty module name puts the file directly under the root. */
  lemma ModuleFilePathEmptyName(root: string, version: string)
    requires root != [] && root[|root| - 1] != '/'
    requires version == [] || version[0] != '/'
    ensures ModuleFilePath(root, "", version) == root + "/" + version + ".lua"
  {
    var file := version + ".lua";
    assert file[0] != '/';
    assert !StartsWith(file, "/") by { assert file[..1] == [file[0]]; }
    assert ModuleDirectory(root, "") == root + "/";
  }
}
