/** Local path resolution: where a repository's mirror lives on disk. */
module Paths {
  /** Index of the last '/' in s, or -1 when s has no '/'. */
  function LastSlash(s: string): (i: int)
    ensures -1 <= i < |s|
    ensures 0 <= i ==> s[i] == '/'
    ensures forall k :: i < k < |s| ==> s[k] != '/'
  {
    if s == [] then -1
    else if s[|s| - 1] == '/' then |s| - 1
    else LastSlash(s[..|s| - 1])
  }

  /** `path.Dir` for the shapes a repository full name takes: the part before
      the last '/', "/" when that part is empty, "." when there is no '/'. */
  function Dir(name: string): (d: string)
    ensures d != []
    ensures d == "." || d == "/" || (|d| < |name| && name[..|d|] == d && name[|d|] == '/')
  {
    var i := LastSlash(name);
    if i < 0 then "." else if i == 0 then "/" else name[..i]
  }

  /** The mirror directory of a repository: its full name with ".git" appended. */
  function LocalPath(name: string): (p: string)
    ensures |p| == |name| + 4 && p[..|name|] == name && p[|name|..] == ".git"
  {
    name + ".git"
  }

  /** Without a '/', the organisation directory is the current directory. */
  lemma DirWithoutSlash(name: string)
    requires '/' !in name
    ensures Dir(name) == "."
  {
  }

  /** With a '/' that is not the first character, the organisation directory
      is exactly the prefix that ends just before the last '/', and the
      mirror directory lies inside it. */
  lemma DirSplitsAtLastSlash(name: string)
    requires exists j :: 0 < j < |name| && name[j] == '/'
    ensures |Dir(name)| + 1 < |LocalPath(name)|
    ensures name[..|Dir(name)|] == Dir(name)
    ensures name[|Dir(name)|] == '/'
    ensures '/' !in name[|Dir(name)| + 1..]
    ensures LocalPath(name)[..|Dir(name)| + 1] == Dir(name) + "/"
  {
  }

  /** Distinct repositories get distinct mirror directories. */
  lemma LocalPathInjective(a: string, b: string)
    requires LocalPath(a) == LocalPath(b)
    ensures a == b
  {
    assert a == LocalPath(a)[..|a|];
    assert b == LocalPath(b)[..|b|];
  }

  /** Example: "acme/widgets" goes into "acme" as "acme/widgets.git". */
  lemma ResolveAcmeWidgets()
    ensures Dir("acme/widgets") == "acme"
    ensures LocalPath("acme/widgets") == "acme/widgets.git"
  {
    var s := "acme/widgets";
    assert s[4] == '/';
    assert forall k :: 4 < k < |s| ==> s[k] != '/';
    assert LastSlash(s) == 4;
  }
}
