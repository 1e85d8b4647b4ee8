/** Slash-separated path strings and the few helpers of Go's `strings` and
    `path/filepath` packages that the template engine relies on. The paths
    the walk reports are taken to be clean (as `filepath.Walk` produces them
    below a clean root); the names joined to them are arbitrary and are
    cleaned the way `filepath.Join` cleans them. */
module Paths {

  /** `strings.HasPrefix`. */
  function HasPrefix(s: string, prefix: string): (b: bool)
    ensures b <==> |prefix| <= |s| && forall i :: 0 <= i < |prefix| ==> s[i] == prefix[i]
  {
    |prefix| <= |s| && s[..|prefix|] == prefix
  }

  /** Index of the last '/' in `p`, or -1 when there is none. */
  function LastSlash(p: string): (i: int)
    ensures -1 <= i < |p|
    ensures i >= 0 ==> p[i] == '/'
    ensures forall j :: i < j < |p| ==> p[j] != '/'
  {
    if p == [] then -1
    else if p[|p| - 1] == '/' then |p| - 1
    else LastSlash(p[..|p| - 1])
  }

  /** Index of the first '/' in `s`, or `|s|` when there is none. */
  function FirstSlash(s: string): (i: nat)
    ensures i <= |s|
    ensures i < |s| ==> s[i] == '/'
    ensures forall j :: 0 <= j < i ==> s[j] != '/'
  {
    if s == [] || s[0] == '/' then 0
    else
      var i := 1 + FirstSlash(s[1..]);
      assert forall j :: 1 <= j < i ==> s[j] == s[1..][j - 1];
      i
  }

  /** An element of `p` starts at index `j`. */
  predicate ElementStart(p: string, j: int)
    requires 0 <= j <= |p|
  {
    j == 0 || p[j - 1] == '/'
  }

  /** The element of `p` starting at index `j` is "." or "..". */
  predicate DotElementAt(p: string, j: int)
    requires 0 <= j < |p|
  {
    && p[j] == '.'
    && (j + 1 == |p| || p[j + 1] == '/' || (p[j + 1] == '.' && (j + 2 == |p| || p[j + 2] == '/')))
  }

  /** A clean path as the walk reports it below its root: not empty, no
      trailing or doubled separator, and no "." or ".." element. */
  predicate Canonical(p: string) {
    && p != ""
    && p[|p| - 1] != '/'
    && (forall j :: 0 <= j < |p| - 1 ==> !(p[j] == '/' && p[j + 1] == '/'))
    && (forall j :: 0 <= j < |p| && ElementStart(p, j) ==> !DotElementAt(p, j))
  }

  /** A single path element: not empty, not "." or "..", and without a
      separator. */
  predicate Element(name: string) {
    name != "" && name != "." && name != ".." && '/' !in name
  }

  /** A canonical path is neither ".", ".." nor the root. */
  lemma CanonicalNotDotNorRoot(p: string)
    requires Canonical(p)
    ensures p != "." && p != ".." && p != "/"
  {
    assert ElementStart(p, 0);
    assert !DotElementAt(p, 0);
  }

  /** `filepath.Base` for a path without a trailing separator. */
  function Base(p: string): (r: string)
    ensures '/' !in r
    ensures |r| <= |p| && r == p[|p| - |r|..]
    ensures Canonical(p) ==> Element(r)
  {
    var i := LastSlash(p);
    LastElement(p, i);
    p[i + 1..]
  }

  /** The text after the last separator of a canonical path is an element. */
  lemma LastElement(p: string, i: int)
    requires -1 <= i < |p| && (i >= 0 ==> p[i] == '/')
    requires forall j :: i < j < |p| ==> p[j] != '/'
    ensures '/' !in p[i + 1..]
    ensures Canonical(p) ==> Element(p[i + 1..])
  {
    var r := p[i + 1..];
    assert forall j :: 0 <= j < |r| ==> r[j] == p[i + 1 + j];
    if Canonical(p) {
      assert ElementStart(p, i + 1);
      assert !DotElementAt(p, i + 1);
    }
  }

  /** The part of a canonical path before one of its separators (other than
      a leading one) is canonical too. */
  lemma PrefixCanonical(p: string, i: int)
    requires 0 < i < |p| && p[i] == '/'
    ensures Canonical(p) ==> Canonical(p[..i]) && HasPrefix(p, p[..i] + "/")
  {
    if !Canonical(p) {
      return;
    }
    var r := p[..i];
    assert p[i - 1] != '/';
    forall j | 0 <= j < |r| && ElementStart(r, j)
      ensures !DotElementAt(r, j)
    {
      assert ElementStart(p, j);
      assert !DotElementAt(p, j);
    }
    assert p[..i + 1] == r + "/";
  }

  /** `filepath.Dir` for a clean path: everything before the last separator,
      "/" for a top-level absolute path, "." for a bare name. The parent of a
      canonical path is ".", the root, or a canonical path containing it. */
  function Dir(p: string): (r: string)
    ensures r != ""
    ensures Canonical(p) ==> r == "." || r == "/" || (Canonical(r) && Below(p, r))
  {
    var i := LastSlash(p);
    if i < 0 then "."
    else if i == 0 then "/"
    else
      PrefixCanonical(p, i);
      p[..i]
  }

  /** How `filepath.Clean` resolves a ".." element after the clean path
      `dir`: the root stays the root, ".." is kept when nothing is left to go
      up from, and otherwise the last element is dropped. */
  function Up(dir: string): string {
    if dir == "/" then "/"
    else if dir == "." then ".."
    else if Base(dir) == ".." then dir + "/.."
    else Dir(dir)
  }

  /** One element `part` of a name resolved after the clean path `dir`:
      empty and "." elements vanish, ".." goes up, any other element is
      appended. */
  function Step(dir: string, part: string): string {
    if part == "" || part == "." then dir
    else if part == ".." then Up(dir)
    else if dir == "." then part
    else if dir == "/" then "/" + part
    else dir + "/" + part
  }

  /** The elements of `rest` resolved one after another after `dir`. */
  function Resolve(dir: string, rest: string): string
    decreases |rest|
  {
    var i := FirstSlash(rest);
    if i == |rest| then Step(dir, rest)
    else Resolve(Step(dir, rest[..i]), rest[i + 1..])
  }

  /** A name without a separator is a single step. */
  lemma NoSlashResolve(dir: string, name: string)
    ensures '/' !in name ==> Resolve(dir, name) == Step(dir, name)
  {
    var i := FirstSlash(name);
    if i < |name| {
      assert name[i] in name;
    }
  }

  /** Appending a single element to ".", to the root or to a canonical path
      gives a path whose parent is that path and whose base name is the
      element. */
  lemma StepElement(dir: string, name: string)
    ensures (dir == "." || dir == "/" || Canonical(dir)) && Element(name) ==>
      Dir(Step(dir, name)) == dir && Base(Step(dir, name)) == name
  {
    if !((dir == "." || dir == "/" || Canonical(dir)) && Element(name)) {
    } else if dir == "." {
      assert LastSlash(name) == -1;
    } else if dir == "/" {
      LastSlashOfJoined("", name);
      assert "" + "/" + name == "/" + name;
    } else {
      var t := dir + "/" + name;
      LastSlashOfJoined(dir, name);
      assert t[..|dir|] == dir;
      assert t[|dir| + 1..] == name;
    }
  }

  /** `filepath.Join(dir, name)` for a clean `dir`, which is
      `Clean(dir + "/" + name)`: the elements of `name` are resolved after
      `dir`, so an empty name or "." gives `dir` back, ".." goes up, and a
      single element becomes the new base name below `dir`. With an empty
      `dir` it is `Clean(name)`. */
  function Join(dir: string, name: string): (r: string)
    ensures dir != "" && (name == "" || name == ".") ==> r == dir
    ensures dir != "" && name == ".." ==> r == Up(dir)
    ensures (dir == "." || dir == "/" || Canonical(dir)) && Element(name) ==> Dir(r) == dir && Base(r) == name
  {
    if dir == "" then
      if name == "" then "" else Resolve(if name[0] == '/' then "/" else ".", name)
    else
      NoSlashResolve(dir, name);
      StepElement(dir, name);
      Resolve(dir, name)
  }

  /** Joining a single element to "." gives the element; to any other
      directory except the root, the directory, a separator and the
      element. */
  lemma JoinElement(dir: string, name: string)
    requires Element(name)
    ensures dir == "." ==> Join(dir, name) == name
    ensures dir != "" && dir != "." && dir != "/" ==> Join(dir, name) == dir + "/" + name
  {
    NoSlashResolve(dir, name);
  }

  /** A trailing separator on a name changes nothing. */
  lemma JoinTrailingSlash(dir: string, name: string)
    requires dir != "" && '/' !in name
    ensures Join(dir, name + "/") == Join(dir, name)
  {
    var n := name + "/";
    NoSlashResolve(dir, name);
    assert n[|name|] == '/';
    assert FirstSlash(n) == |name|;
    assert n[..|name|] == name && n[|name| + 1..] == "";
    assert Resolve(dir, n) == Resolve(Step(dir, name), "");
    assert FirstSlash("") == 0;
  }

  /** Going up from a canonical path drops its base name. */
  lemma UpCanonical(dir: string)
    requires Canonical(dir)
    ensures Up(dir) == Dir(dir)
  {
    CanonicalNotDotNorRoot(dir);
  }

  /** `child` lies strictly inside the directory `parent`. */
  predicate Below(child: string, parent: string) {
    HasPrefix(child, parent + "/")
  }

  predicate AtOrBelow(child: string, parent: string) {
    child == parent || Below(child, parent)
  }

  /** Being inside a directory is transitive. */
  lemma BelowTransitive(a: string, b: string, c: string)
    requires Below(a, b) && AtOrBelow(b, c)
    ensures Below(a, c)
  {
    if b != c {
      assert a[..|c| + 1] == a[..|b| + 1][..|c| + 1];
    }
  }

  /** The last separator of `dir + "/" + name` is the one Join inserted. */
  lemma LastSlashOfJoined(dir: string, name: string)
    requires '/' !in name
    ensures LastSlash(dir + "/" + name) == |dir|
  {
    NoSlashAfter(dir, name);
    LastSlashAt(dir + "/" + name, |dir|);
  }

  lemma NoSlashAfter(dir: string, name: string)
    requires '/' !in name
    ensures var t := dir + "/" + name; t[|dir|] == '/' && forall j :: |dir| < j < |t| ==> t[j] != '/'
  {
    var t := dir + "/" + name;
    forall j | |dir| < j < |t|
      ensures t[j] != '/'
    {
      assert t[j] == name[j - |dir| - 1];
    }
  }

  /** A '/' with none after it is the last one. */
  lemma LastSlashAt(t: string, i: int)
    requires 0 <= i < |t| && t[i] == '/'
    requires forall j :: i < j < |t| ==> t[j] != '/'
    ensures LastSlash(t) == i
  {
  }

  /** Splitting a canonical path at its last separator and joining the pieces
      again gives the path back. */
  lemma JoinDirBase(p: string)
    requires Canonical(p)
    ensures Join(Dir(p), Base(p)) == p
  {
    var i := LastSlash(p);
    NoSlashResolve(Dir(p), Base(p));
    if i > 0 {
      PrefixCanonical(p, i);
      CanonicalNotDotNorRoot(p[..i]);
      assert p == p[..i] + "/" + p[i + 1..];
    }
  }

  /** Replacing the base name of a canonical path by an element `name` keeps
      the parent directory, and changes the path exactly when the name
      differs from the old base name. */
  lemma ReplaceBase(p: string, name: string)
    requires Canonical(p) && Element(name)
    ensures var t := Join(Dir(p), name);
      && Dir(t) == Dir(p)
      && Base(t) == name
      && (t == p <==> name == Base(p))
  {
    JoinDirBase(p);
  }

  /** Index of the last '.' or '/' in `p`, or -1 when there is neither:
      where Go's backward scan in `filepath.Ext` stops. */
  function LastDotOrSlash(p: string): (k: int)
    ensures -1 <= k < |p|
    ensures k >= 0 ==> p[k] == '.' || p[k] == '/'
    ensures forall j :: k < j < |p| ==> p[j] != '.' && p[j] != '/'
  {
    if p == [] then -1
    else if p[|p| - 1] == '.' || p[|p| - 1] == '/' then |p| - 1
    else LastDotOrSlash(p[..|p| - 1])
  }

  /** `filepath.Ext`: the suffix starting at the last '.' of the final
      element, or "" when that element has no '.'. */
  function Ext(p: string): (r: string)
    ensures |r| <= |p| && r == p[|p| - |r|..]
    ensures r != "" ==> r[0] == '.' && '.' !in r[1..] && '/' !in r
    ensures r == "" ==> forall j :: LastSlash(p) < j < |p| ==> p[j] != '.'
  {
    var k := LastDotOrSlash(p);
    if k >= 0 && p[k] == '.' then p[k..] else ""
  }

  /** A '.' or '/' with neither after it is where the scan stops. */
  lemma LastDotOrSlashAt(p: string, k: int)
    requires 0 <= k < |p| && (p[k] == '.' || p[k] == '/')
    requires forall j :: k < j < |p| ==> p[j] != '.' && p[j] != '/'
    ensures LastDotOrSlash(p) == k
  {
  }

  /** The extension of "." + name, as `Skip` computes it: the name's own
      extension when it has a '.', and otherwise the whole name with a dot in
      front, so a file named "png" has the extension ".png". */
  lemma ExtOfDotted(name: string)
    requires '/' !in name
    ensures var e := Ext("." + name);
      && e != "" && e[0] == '.'
      && ('.' in name ==> e == Ext(name))
      && ('.' !in name ==> e == "." + name)
  {
    var p := "." + name;
    assert forall j :: 0 < j < |p| ==> p[j] == name[j - 1];
    if '.' in name {
      var k := LastDotOrSlash(name);
      assert name[k] == '.';
      LastDotOrSlashAt(p, k + 1);
      assert p[k + 1..] == name[k..];
    } else {
      LastDotOrSlashAt(p, 0);
    }
  }
}
