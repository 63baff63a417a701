/** The pieces of POSIX `os.path` the writers rely on: `join` of two
    components and `dirname`, as Python's `posixpath` computes them. */
module PyPath {

  predicate StartsWith(s: string, prefix: string) {
    |prefix| <= |s| && s[..|prefix|] == prefix
  }

  predicate IsAbsolute(p: string) {
    |p| > 0 && p[0] == '/'
  }

  /** `os.path.join(a, b)`: an absolute `b` replaces `a`; otherwise `b` is
      appended, with one '/' in between unless `a` is empty or already ends
      in '/'. */
  function Join(a: string, b: string): (r: string)
    ensures |r| >= |b| && r[|r| - |b|..] == b
    ensures IsAbsolute(b) ==> r == b
    ensures !IsAbsolute(b) ==> StartsWith(r, a)
    ensures !IsAbsolute(b) && a != [] ==> r[..|r| - |b|] == a || r[..|r| - |b|] == a + "/"
    ensures !IsAbsolute(b) && a != [] ==> r[|r| - |b| - 1] == '/'
    ensures !IsAbsolute(b) ==> |r| == |a| + |b| + (if a == [] || a[|a| - 1] == '/' then 0 else 1)
  {
    if IsAbsolute(b) then b
    else if a == [] || a[|a| - 1] == '/' then a + b
    else a + "/" + b
  }

  /** `p.rfind('/') + 1`: the length of the part of `p` up to and including
      its last '/', or 0 when it has none. */
  function DirEnd(p: string): (i: nat)
    ensures i <= |p|
    ensures i > 0 ==> p[i - 1] == '/'
    ensures forall j :: i <= j < |p| ==> p[j] != '/'
  {
    if p == [] then 0
    else if p[|p| - 1] == '/' then |p|
    else DirEnd(p[..|p| - 1])
  }

  predicate AllSlashes(s: string) {
    forall i :: 0 <= i < |s| ==> s[i] == '/'
  }

  /** `s.rstrip('/')`. */
  function StripTrailingSlashes(s: string): (r: string)
    ensures StartsWith(s, r)
    ensures r == [] || r[|r| - 1] != '/'
    ensures AllSlashes(s[|r|..])
  {
    if s == [] || s[|s| - 1] != '/' then s
    else
      var r := StripTrailingSlashes(s[..|s| - 1]);
      assert s[|r|..] == s[..|s| - 1][|r|..] + ['/'];
      r
  }

  /** `os.path.dirname(p)`: the text before the last '/', with trailing
      slashes removed unless it consists of slashes only. */
  function Dirname(p: string): (r: string)
    ensures StartsWith(p, r) && |r| <= DirEnd(p)
    ensures '/' !in p[DirEnd(p)..]
    ensures AllSlashes(p[..DirEnd(p)]) ==> r == p[..DirEnd(p)]
    ensures !AllSlashes(p[..DirEnd(p)]) ==>
              r != [] && r[|r| - 1] != '/' && AllSlashes(p[|r|..DirEnd(p)])
  {
    var head := p[..DirEnd(p)];
    if head != [] && !AllSlashes(head) then
      var r := StripTrailingSlashes(head);
      assert p[|r|..DirEnd(p)] == head[|r|..];
      r
    else head
  }

  /** The properties `Dirname` promises pick out one string: any prefix of
      `p` that has them is `Dirname(p)`. */
  lemma DirnameUnique(p: string, r: string)
    requires StartsWith(p, r) && |r| <= DirEnd(p)
    requires AllSlashes(p[..DirEnd(p)]) ==> r == p[..DirEnd(p)]
    requires !AllSlashes(p[..DirEnd(p)]) ==>
               r != [] && r[|r| - 1] != '/' && AllSlashes(p[|r|..DirEnd(p)])
    ensures r == Dirname(p)
  {
    var d := Dirname(p);
    var e := DirEnd(p);
    if !AllSlashes(p[..e]) {
      assert r == p[..|r|] && d == p[..|d|];
    }
  }

  lemma DirnameExamples()
    ensures Dirname("/a/b") == "/a" && Dirname("a//b") == "a" && Dirname("a/b/") == "a/b"
    ensures Dirname("a") == "" && Dirname("/a") == "/" && Dirname("//a") == "//"
  {
    assert DirEnd("/a/b") == 3 && "/a/b"[..3][1] != '/';
    DirnameUnique("/a/b", "/a");
    assert DirEnd("a//b") == 3 && "a//b"[..3][0] != '/';
    DirnameUnique("a//b", "a");
    assert DirEnd("a/b/") == 4 && "a/b/"[..4][0] != '/';
    DirnameUnique("a/b/", "a/b");
    DirnameUnique("a", "");
    DirnameUnique("/a", "/");
    DirnameUnique("//a", "//");
  }
}
