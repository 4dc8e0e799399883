/** The two `os.path` functions the pipeline uses, with POSIX semantics. */
module Paths {

  /** No character of `s` is a path separator. */
  predicate NoSlash(s: string) {
    forall i :: 0 <= i < |s| ==> s[i] != '/'
  }

  /** `os.path.join(dir, name)` for two components: an absolute `name` wins,
      otherwise a separator is added unless `dir` is empty or already ends
      with one. */
  function Join(dir: string, name: string): string {
    if |name| > 0 && name[0] == '/' then name
    else if dir == [] || dir[|dir| - 1] == '/' then dir + name
    else dir + "/" + name
  }

  /** Joining a relative name to a directory without a trailing separator
      inserts exactly one separator. */
  lemma JoinRelative(dir: string, name: string)
    requires dir != [] && dir[|dir| - 1] != '/'
    requires name == [] || name[0] != '/'
    ensures Join(dir, name) == dir + "/" + name
  {
  }

  /** `os.path.basename(p)`: what follows the last separator. */
  function Basename(p: string): (r: string)
    ensures NoSlash(r)
    ensures |r| <= |p| && r == p[|p| - |r|..]
    ensures |r| < |p| ==> p[|p| - |r| - 1] == '/'
  {
    if p == [] then []
    else if p[|p| - 1] == '/' then []
    else Basename(p[..|p| - 1]) + [p[|p| - 1]]
  }

  /** Joining a directory with a separator-free name and taking the basename
      gives the name back. */
  lemma BasenameOfJoin(dir: string, name: string)
    requires NoSlash(name)
    ensures Basename(dir + "/" + name) == name
  {
    var p := dir + "/" + name;
    var r := Basename(p);
    assert p[|dir|] == '/';
    assert r == p[|p| - |r|..] == name;
  }
}
