/** The three `os.path` functions the core calls, as POSIX defines them for
    the separator '/': `basename`, `dirname` and `join` of two components. */
module PosixPath {
  import opened PyStr

  /** `os.path.basename(p)`: what follows the last '/'. */
  function BaseName(p: string): (b: string)
    ensures '/' !in b
    ensures |b| <= |p| && p[|p| - |b|..] == b
    ensures |b| < |p| ==> p[|p| - |b| - 1] == '/'
    ensures '/' !in p ==> b == p
  {
    p[RFind(p, '/') + 1..]
  }

  /** `s.rstrip('/')` */
  function StripTrailingSlashes(s: string): (t: string)
    ensures |t| <= |s| && s[..|t|] == t
    ensures t == [] || t[|t| - 1] != '/'
    ensures forall k :: |t| <= k < |s| ==> s[k] == '/'
  {
    if s == [] || s[|s| - 1] != '/' then s
    else StripTrailingSlashes(s[..|s| - 1])
  }

  predicate AllSlashes(s: string) {
    forall k :: 0 <= k < |s| ==> s[k] == '/'
  }

  /** `os.path.dirname(p)`: everything up to the last '/', with the trailing
      slashes removed unless nothing but slashes is left. */
  function DirName(p: string): string {
    var head := p[..RFind(p, '/') + 1];
    if head != [] && !AllSlashes(head) then StripTrailingSlashes(head) else head
  }

  /** `os.path.join(a, b)`: an absolute b replaces a; otherwise a '/' is put
      between them unless a is empty or already ends with one. */
  function Join(a: string, b: string): string {
    if StartsWith(b, "/") then b
    else if a == [] || a[|a| - 1] == '/' then a + b
    else a + "/" + b
  }

  /** Joining a name that has no '/' and taking the basename gives the name
      back, whatever the directory. */
  lemma BaseNameOfJoin(dir: string, name: string)
    requires '/' !in name
    ensures BaseName(Join(dir, name)) == name
  {
    NotAbsolute(name);
    if dir == [] || dir[|dir| - 1] == '/' {
      BaseNameAfterSlash(dir, name);
    } else {
      BaseNameAfterSlash(dir + "/", name);
    }
  }

  /** A name with no '/' that follows a '/' (or nothing) is the basename. */
  lemma BaseNameAfterSlash(prefix: string, name: string)
    requires '/' !in name
    requires prefix == [] || prefix[|prefix| - 1] == '/'
    ensures BaseName(prefix + name) == name
  {
    var p := prefix + name;
    assert forall j :: |prefix| <= j < |p| ==> p[j] == name[j - |prefix|];
    RFindIs(p, '/', |prefix| - 1);
    assert p[|prefix|..] == name;
  }

  lemma NotAbsolute(name: string)
    requires '/' !in name
    ensures !StartsWith(name, "/")
  {
    if |name| >= 1 { assert name[..1][0] == name[0]; }
  }

  /** Taking the dirname undoes a join onto a non-empty directory that does
      not end in '/'. */
  lemma DirNameOfJoin(dir: string, name: string)
    requires '/' !in name
    requires dir != [] && dir[|dir| - 1] != '/'
    ensures DirName(Join(dir, name)) == dir
  {
    NotAbsolute(name);
    var p := Join(dir, name);
    assert p == dir + "/" + name;
    assert p[|dir|] == '/';
    assert forall j :: |dir| < j < |p| ==> p[j] == name[j - |dir| - 1];
    var head := p[..RFind(p, '/') + 1];
    assert head == dir + "/";
    assert head[|dir| - 1] != '/';
  }
}
