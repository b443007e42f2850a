/**
  The part of `java.io.File` the handler registry relies on, for Unix paths:
  the parent of a path, and a child path made from a parent and a name.
  Path normalisation (collapsing repeated and trailing separators) is not
  modelled: paths are taken as already normal.
 */
module Paths {
  import opened Results

  const Separator: char := '/'

  predicate IsAbsolute(p: string)
  {
    |p| > 0 && p[0] == Separator
  }

  /** The index of the last separator in `p`, or -1. */
  function LastSeparator(p: string): (r: int)
    ensures -1 <= r < |p|
    ensures r >= 0 ==> p[r] == Separator
    ensures forall k :: r < k < |p| ==> p[k] != Separator
  {
    if p == [] then -1
    else if p[|p| - 1] == Separator then |p| - 1
    else LastSeparator(p[..|p| - 1])
  }

  /**
    `File.getParent`: everything before the last separator, except that the
    root of an absolute path is kept; no parent when there is no separator
    or the path is the root itself.
   */
  function Parent(p: string): (r: Option<string>)
    ensures r.Some? ==> |r.value| < |p| && r.value == p[..|r.value|]
    ensures r.None? <==> p == [Separator] || forall k :: 0 <= k < |p| ==> p[k] != Separator
  {
    var i := LastSeparator(p);
    var prefix := if IsAbsolute(p) then 1 else 0;
    if i < prefix then
      if prefix > 0 && |p| > prefix then Some(p[..prefix]) else None
    else Some(p[..i])
  }

  /** The Unix file system's `resolve`: a child path appended to a parent path. */
  function Resolve(parent: string, child: string): string
  {
    if child == [] then parent
    else if child[0] == Separator then (if parent == [Separator] then child else parent + child)
    else if parent == [Separator] then parent + child
    else parent + [Separator] + child
  }

  /** `new File(parent, child)`: a missing parent leaves the child alone, an empty one means the root. */
  function Child(parent: Option<string>, child: string): string
  {
    match parent
    case None => child
    case Some(p) => if p == [] then Resolve([Separator], child) else Resolve(p, child)
  }

  /**
    The descriptor's file reference rule: a name starting with a separator
    is used as it is, any other name is taken relative to the directory that
    holds the properties file.
   */
  function GetFile(filename: string, propertiesFile: string): string
  {
    if IsAbsolute(filename) then filename else Child(Parent(propertiesFile), filename)
  }

  /** A directory path in normal form: not empty, and no trailing separator unless it is the root. */
  predicate NormalDirectory(dir: string)
  {
    |dir| > 0 && (dir == [Separator] || dir[|dir| - 1] != Separator)
  }

  /** A name as a directory listing returns it: one path component. */
  predicate PlainName(name: string)
  {
    |name| > 0 && forall k :: 0 <= k < |name| ==> name[k] != Separator
  }

  /** The parent of an entry found in a directory is that directory. */
  lemma ParentOfChild(dir: string, name: string)
    requires NormalDirectory(dir) && PlainName(name)
    ensures Parent(Child(Some(dir), name)) == Some(dir)
  {
    var p := Child(Some(dir), name);
    if dir == [Separator] {
      assert p == [Separator] + name;
      assert LastSeparator(p) == 0 by {
        assert p[0] == Separator;
        assert forall k :: 0 < k < |p| ==> p[k] == name[k - 1];
        LastSeparatorIs(p, 0);
      }
    } else {
      assert p == dir + [Separator] + name;
      assert LastSeparator(p) == |dir| by {
        assert p[|dir|] == Separator;
        assert forall k :: |dir| < k < |p| ==> p[k] == name[k - |dir| - 1];
        LastSeparatorIs(p, |dir|);
      }
      assert p[..|dir|] == dir;
    }
  }

  lemma {:induction false} LastSeparatorIs(p: string, i: nat)
    requires i < |p| && p[i] == Separator
    requires forall k :: i < k < |p| ==> p[k] != Separator
    ensures LastSeparator(p) == i
  {
    if p[|p| - 1] != Separator {
      var q := p[..|p| - 1];
      assert forall k :: i < k < |q| ==> q[k] == p[k];
      LastSeparatorIs(q, i);
    }
  }

  /**
    A file named in a descriptor found in directory `dir` is the name itself
    when absolute, and otherwise the name inside `dir`.
   */
  lemma GetFileInDirectory(dir: string, descriptorName: string, filename: string)
    requires NormalDirectory(dir) && PlainName(descriptorName)
    ensures GetFile(filename, Child(Some(dir), descriptorName))
      == if IsAbsolute(filename) then filename else Child(Some(dir), filename)
  {
    ParentOfChild(dir, descriptorName);
  }

  /**
    Joining with `new File(parent, child)` does not respect an absolute
    child: below any directory other than the root, the child is appended.
   */
  lemma ChildIgnoresAbsolute(dir: string, filename: string)
    requires NormalDirectory(dir) && dir != [Separator] && IsAbsolute(filename)
    ensures Child(Some(dir), filename) == dir + filename
    ensures Child(Some(dir), filename) != filename
  {
    assert |dir + filename| > |filename|;
  }

  /** A relative name inside a directory other than the root is separated from it by one separator. */
  lemma ChildOfRelative(dir: string, filename: string)
    requires NormalDirectory(dir) && |filename| > 0 && !IsAbsolute(filename)
    ensures Child(Some(dir), filename) == (if dir == [Separator] then dir + filename else dir + [Separator] + filename)
    ensures Parent(Child(Some(dir), filename)) == Some(dir) <==> PlainName(filename)
  {
    var p := Child(Some(dir), filename);
    if PlainName(filename) {
      ParentOfChild(dir, filename);
    } else {
      var k :| 0 <= k < |filename| && filename[k] == Separator;
      var off := if dir == [Separator] then 1 else |dir| + 1;
      assert p[off + k] == Separator;
      var i := LastSeparator(p);
      assert i >= off + k;
      assert k >= 1;
      assert Parent(p) == Some(p[..i]);
      assert |p[..i]| > |dir|;
    }
  }
}
