/**
 * An abstract file system: the paths that exist as directories and as regular files, the paths
 * the system refuses to remove, and a fresh-name allocator for temporary directories.
 * Byte contents are not modelled.
 */
module Files {
  import opened Wrappers
  import opened JavaStrings
  import opened Exceptions

  const Separator: char := '/'

  /** `new File(dir, name)` for a plain name. */
  function Child(dir: string, name: string): string {
    dir + [Separator] + name
  }

  /** `p` is `root` itself or lies somewhere below it. */
  predicate InSubtree(root: string, p: string) {
    p == root || StartsWith(p, root + [Separator])
  }

  /** The immediate child of `root` on the way down to `p`, when `p` lies strictly below `root`. */
  function ChildOf(root: string, p: string): Option<string> {
    if StartsWith(p, root + [Separator]) then Some(Child(root, UpTo(p[|root| + 1..], Separator)))
    else None
  }

  /** `c` is an immediate child of `root`. */
  predicate IsChild(root: string, c: string) {
    ChildOf(root, c) == Some(c)
  }

  /** The way down from `root` to `p` leads through an immediate child of `root`. */
  lemma ChildOfIsChild(root: string, p: string)
    requires ChildOf(root, p).Some?
    ensures IsChild(root, ChildOf(root, p).value)
  {
    var c := ChildOf(root, p).value;
    var u := UpTo(p[|root| + 1..], Separator);
    assert c[|root| + 1..] == u;
    assert UpTo(u, Separator) == u;
  }

  lemma ChildName(root: string, c: string)
    requires IsChild(root, c)
    ensures c == Child(root, c[|root| + 1..]) && Separator !in c[|root| + 1..]
  {
  }

  /** A child under a non-empty name ends in that name, not in a separator. */
  lemma ChildEnd(root: string, c: string)
    requires IsChild(root, c) && |c| > |root| + 1
    ensures |c| > 1 && c[|c| - 1] != Separator
  {
    ChildName(root, c);
    assert c[|c| - 1] == c[|root| + 1..][|c| - |root| - 2];
  }

  /** Below an immediate child `c` of `root` lie exactly the paths whose way down from `root` goes through `c`. */
  lemma ChildSubtree(root: string, c: string, p: string)
    requires IsChild(root, c)
    ensures InSubtree(c, p) <==> ChildOf(root, p) == Some(c)
  {
    ChildName(root, c);
    var n := c[|root| + 1..];
    if InSubtree(c, p) && p != c {
      var more := p[|c| + 1..];
      assert p == root + [Separator] + (n + [Separator] + more);
      assert p[|root| + 1..] == n + [Separator] + more;
      UpToBefore(n, Separator, more);
    }
    if ChildOf(root, p) == Some(c) {
      var rest := p[|root| + 1..];
      var u := UpTo(rest, Separator);
      assert p == root + [Separator] + rest;
      if u != rest {
        assert rest == u + [Separator] + rest[|u| + 1..];
        assert p == c + [Separator] + rest[|u| + 1..];
      }
    }
  }

  /** A separator at `i` directly followed by another. */
  predicate DoubleAt(s: string, i: int) {
    0 <= i < |s| - 1 && s[i] == Separator && s[i + 1] == Separator
  }

  /** No separator is directly followed by another. */
  predicate NoDoubleSeparator(s: string) {
    forall i :: 0 <= i < |s| ==> !DoubleAt(s, i)
  }

  /** Runs of separators collapsed into one, every other character kept in order. */
  function Collapse(s: string): (r: string)
    ensures |r| <= |s|
    ensures s != [] ==> r != [] && r[0] == s[0] && r[|r| - 1] == s[|s| - 1]
    decreases |s|
  {
    if |s| < 2 then s
    else if s[0] == Separator && s[1] == Separator then Collapse(s[1..])
    else [s[0]] + Collapse(s[1..])
  }

  /** After collapsing, no separator is directly followed by another. */
  lemma {:induction false} CollapseNoDouble(s: string)
    ensures NoDoubleSeparator(Collapse(s))
    decreases |s|
  {
    if |s| >= 2 {
      CollapseNoDouble(s[1..]);
      if !(s[0] == Separator && s[1] == Separator) {
        var t := Collapse(s[1..]);
        var r := [s[0]] + t;
        forall i | 0 <= i < |r| ensures !DoubleAt(r, i) {
          if i > 0 {
            assert !DoubleAt(t, i - 1);
          } else if |r| > 1 {
            assert r[1] == s[1];
          }
        }
      }
    }
  }

  /** Collapsing leaves a path without doubled separators as it is. */
  lemma {:induction false} CollapseIdentity(s: string)
    requires NoDoubleSeparator(s)
    ensures Collapse(s) == s
    decreases |s|
  {
    if |s| >= 2 {
      assert !DoubleAt(s, 0);
      forall i | 0 <= i < |s| - 1 ensures !DoubleAt(s[1..], i) {
        assert !DoubleAt(s, i + 1);
      }
      CollapseIdentity(s[1..]);
      assert [s[0]] + s[1..] == s;
    }
  }

  /** `java.io.File`'s normalisation: runs of separators become one, and a trailing separator goes. */
  function Normalize(s: string): (r: string)
    ensures |r| <= |s|
    ensures s != [] && s[|s| - 1] != Separator ==> r == Collapse(s) && r != [] && r[|r| - 1] == s[|s| - 1]
  {
    var c := Collapse(s);
    if |c| > 1 && c[|c| - 1] == Separator then c[..|c| - 1] else c
  }

  /** Normalising twice changes nothing more, and a normalised path has no doubled separator. */
  lemma NormalizeIdempotent(s: string)
    ensures NoDoubleSeparator(Normalize(s)) && Normalize(Normalize(s)) == Normalize(s)
  {
    var c := Collapse(s);
    CollapseNoDouble(s);
    var n := Normalize(s);
    forall i | 0 <= i < |n| ensures !DoubleAt(n, i) {
      assert !DoubleAt(c, i);
    }
    CollapseIdentity(n);
    if |c| > 1 && c[|c| - 1] == Separator {
      assert !DoubleAt(c, |c| - 2);
      assert n[|n| - 1] == c[|c| - 2];
    }
  }

  /** The normalised name with a leading separator dropped: what `new File(dir, name)` puts after `dir/`. */
  function Leaf(name: string): string {
    var n := Normalize(name);
    if n != [] && n[0] == Separator then n[1..] else n
  }

  /**
   * `new File(dir, name)`: the name is normalised; a name that starts with a separator is appended
   * to `dir` as it is, any other after a separator.
   */
  function Resolve(dir: string, name: string): (r: string)
    ensures StartsWith(r, dir)
    ensures Normalize(name) == [] ==> r == dir
  {
    var n := Normalize(name);
    if n == [] then dir
    else if n[0] == Separator then (if dir == [Separator] then n else dir + n)
    else if dir == [Separator] then dir + n
    else dir + [Separator] + n
  }

  /** A name that does not end in a separator lands strictly below any directory other than the root. */
  lemma ResolveBelow(dir: string, name: string)
    requires dir != [] && dir != [Separator]
    requires name != [] && name[|name| - 1] != Separator
    ensures Leaf(name) != [] && Resolve(dir, name) == Child(dir, Leaf(name))
  {
    var n := Normalize(name);
    if n[0] == Separator {
      assert |n| > 1;
      assert dir + n == dir + [Separator] + n[1..];
    }
  }

  /** `p`'s parent is a directory, or `p` sits directly under the root or the current directory. */
  predicate ParentIn(dirs: set<string>, p: string) {
    var i := LastIndexOf(p, Separator);
    i <= 0 || p[..i] in dirs
  }

  /**
   * What every reachable state satisfies: no path is both a directory and a file, and every
   * proper prefix of an existing path that ends before a separator is a directory.
   */
  ghost predicate Tree(dirs: set<string>, files: set<string>) {
    && dirs !! files
    && forall p, k {:trigger p[..k]} :: (p in dirs || p in files) && 0 < k < |p| && p[k] == Separator ==> p[..k] in dirs
  }

  /** Nothing exists below a non-empty path that is not a directory. */
  lemma NothingBelow(dirs: set<string>, files: set<string>, d: string, p: string)
    requires Tree(dirs, files) && d != [] && d !in dirs
    requires StartsWith(p, d + [Separator])
    ensures p !in dirs && p !in files
  {
    assert p[|d|] == Separator && p[..|d|] == d;
  }

  /** Adding a directory under an existing one, by a plain non-existing name, keeps the tree. */
  lemma TreeAddDir(dirs: set<string>, files: set<string>, parent: string, name: string)
    requires Tree(dirs, files) && parent in dirs && Separator !in name
    requires Child(parent, name) !in files
    ensures Tree(dirs + {Child(parent, name)}, files)
  {
    var c := Child(parent, name);
    forall k | 0 < k < |c| && c[k] == Separator ensures c[..k] in dirs {
      if k < |parent| {
        assert parent[k] == c[k] && parent[..k] == c[..k];
      } else if k == |parent| {
        assert c[..k] == parent;
      }
    }
  }

  /** Adding a file whose parent is a directory keeps the tree. */
  lemma TreeAddFile(dirs: set<string>, files: set<string>, p: string)
    requires Tree(dirs, files) && ParentIn(dirs, p) && p !in dirs
    ensures Tree(dirs, files + {p})
  {
    var i := LastIndexOf(p, Separator);
    forall k | 0 < k < |p| && p[k] == Separator ensures p[..k] in dirs {
      assert k <= i;
      if k < i {
        var q := p[..i];
        assert q[k] == Separator && q[..k] == p[..k];
      }
    }
  }

  /** Removing a whole subtree keeps the tree. */
  lemma TreeRemoveSubtree(dirs: set<string>, files: set<string>, root: string)
    requires Tree(dirs, files)
    ensures Tree(set p | p in dirs && !InSubtree(root, p), set p | p in files && !InSubtree(root, p))
  {
  }

  /** A plain name's path has the directory as its parent. */
  lemma PlainChild(d: string, leaf: string)
    requires Separator !in leaf
    ensures IsChild(d, Child(d, leaf)) && LastIndexOf(Child(d, leaf), Separator) == |d|
  {
    var t := Child(d, leaf);
    assert t[..|d| + 1] == d + [Separator] && t[|d| + 1..] == leaf;
    assert t[|d|] == Separator;
    assert forall j :: |d| < j < |t| ==> t[j] == leaf[j - |d| - 1];
    assert UpTo(leaf, Separator) == leaf;
  }

  /** A name with a separator inside has as parent a path strictly below the directory. */
  lemma NestedChild(d: string, leaf: string)
    requires Separator in leaf
    ensures var t := Child(d, leaf); var i := LastIndexOf(t, Separator);
      i > |d| && StartsWith(t[..i], d + [Separator])
  {
    var t := Child(d, leaf);
    var j :| 0 <= j < |leaf| && leaf[j] == Separator;
    assert t[|d| + 1 + j] == Separator;
    var i := LastIndexOf(t, Separator);
    assert t[..i][..|d| + 1] == d + [Separator];
  }

  /**
   * A path below a directory `d` that did not exist: it did not exist either, and its parent is
   * `d` exactly when the name below `d` is plain; otherwise the parent lies below `d` and is not
   * a directory even once `d` is one.
   */
  lemma ChildTarget(dirs: set<string>, files: set<string>, d: string, leaf: string)
    requires Tree(dirs, files) && d != [] && d !in dirs
    ensures Child(d, leaf) !in dirs + {d} && Child(d, leaf) !in files
    ensures Separator !in leaf ==> IsChild(d, Child(d, leaf)) && ParentIn(dirs + {d}, Child(d, leaf))
    ensures Separator in leaf ==> !ParentIn(dirs + {d}, Child(d, leaf))
  {
    var t := Child(d, leaf);
    assert t[..|d| + 1] == d + [Separator];
    NothingBelow(dirs, files, d, t);
    if Separator !in leaf {
      PlainChild(d, leaf);
      assert t[..|d|] == d;
    } else {
      NestedChild(d, leaf);
      var q := t[..LastIndexOf(t, Separator)];
      NothingBelow(dirs, files, d, q);
      assert q != d;
    }
  }

  /**
   * Where `new File(d, name)` lands when `d` is a directory just created: strictly below `d`, at a
   * path that did not exist; its parent is `d` exactly when the leaf holds no separator, and
   * otherwise a path below `d`, which is not a directory.
   */
  lemma StagingTarget(dirs: set<string>, files: set<string>, d: string, name: string)
    requires Tree(dirs, files) && d !in dirs
    requires |d| > 1 && d[|d| - 1] != Separator
    requires name != [] && name[|name| - 1] != Separator
    ensures Resolve(d, name) == Child(d, Leaf(name))
    ensures Resolve(d, name) !in dirs + {d} && Resolve(d, name) !in files
    ensures Separator !in Leaf(name) ==> IsChild(d, Resolve(d, name)) && ParentIn(dirs + {d}, Resolve(d, name))
    ensures Separator in Leaf(name) ==> !ParentIn(dirs + {d}, Resolve(d, name))
  {
    ResolveBelow(d, name);
    ChildTarget(dirs, files, d, Leaf(name));
  }

  /** A name that exists nowhere yet can always be found: one longer than every existing path. */
  lemma {:induction false} LengthBound(paths: set<string>) returns (k: nat)
    ensures forall p :: p in paths ==> |p| < k
    decreases |paths|
  {
    if paths == {} {
      k := 0;
    } else {
      var x :| x in paths;
      var k' := LengthBound(paths - {x});
      k := if |x| < k' then k' else |x| + 1;
    }
  }

  /** No existing path below `root` is one the system refuses to remove. */
  predicate Removable(dirs: set<string>, files: set<string>, locked: set<string>, root: string) {
    forall p :: p in locked && (p in dirs || p in files) ==> !InSubtree(root, p)
  }

  class FileSystem {
    var dirs: set<string>
    var files: set<string>
    /** Paths whose removal fails with an `IOException` (permissions, a busy mount, ...). */
    const locked: set<string>

    /** Every path's parent directories exist, and no path is both a directory and a regular file. */
    ghost predicate Valid()
      reads this
    {
      Tree(dirs, files)
    }

    constructor (dirs: set<string>, files: set<string>, locked: set<string>)
      requires Tree(dirs, files)
      ensures Valid() && this.dirs == dirs && this.files == files && this.locked == locked
    {
      this.dirs := dirs;
      this.files := files;
      this.locked := locked;
    }

    /** `File.exists()`: a directory or a regular file. */
    predicate Exists(p: string)
      reads this
    {
      p in dirs || p in files
    }

    /**
     * `Files.createTempDirectory(parent, "")`: fails when `parent` is not a directory; otherwise
     * creates and returns a new immediate child of `parent`, under a non-empty name that does not
     * exist.
     */
    method CreateTempDirectory(parent: string) returns (r: Result<string, IoError>)
      requires Valid()
      modifies this
      ensures Valid() && files == old(files)
      ensures parent !in old(dirs) ==> r == Failure(NoSuchFile(parent)) && dirs == old(dirs)
      ensures parent in old(dirs) ==>
        && r.Success? && IsChild(parent, r.value) && |r.value| > |parent| + 1 && !old(Exists(r.value))
        && dirs == old(dirs) + {r.value}
    {
      if parent !in dirs {
        return Failure(NoSuchFile(parent));
      }
      ghost var k := LengthBound(dirs + files);
      ghost var long := seq(k + 1, _ => 'x');
      assert Separator !in long && Child(parent, long) !in dirs + files;
      assert UpTo(long, Separator) == long;
      var name: string :| name != [] && Separator !in name && Child(parent, name) !in dirs + files;
      var dir := Child(parent, name);
      assert dir[|parent| + 1..] == name && UpTo(name, Separator) == name;
      TreeAddDir(dirs, files, parent, name);
      dirs := dirs + {dir};
      r := Success(dir);
    }

    /**
     * The creation step of `Files.copy(stream, target)`: fails when the target's parent is not a
     * directory or the target already exists; otherwise creates the target as a regular file.
     */
    method CreateFile(p: string) returns (r: Outcome<IoError>)
      requires Valid()
      modifies this
      ensures Valid() && dirs == old(dirs)
      ensures !ParentIn(old(dirs), p) ==> r == Fail(NoSuchFile(p)) && files == old(files)
      ensures ParentIn(old(dirs), p) && old(Exists(p)) ==> r == Fail(AlreadyExists(p)) && files == old(files)
      ensures ParentIn(old(dirs), p) && !old(Exists(p)) ==> r == Pass && files == old(files) + {p}
    {
      if !ParentIn(dirs, p) {
        return Fail(NoSuchFile(p));
      }
      if Exists(p) {
        return Fail(AlreadyExists(p));
      }
      TreeAddFile(dirs, files, p);
      files := files + {p};
      r := Pass;
    }

    /**
     * `FileUtil.delete(root)`: removes `root` and everything below it, or throws an
     * `IOException` (reported as `false`) when some path there cannot be removed.
     */
    method Delete(root: string) returns (ok: bool)
      requires Valid()
      modifies this
      ensures Valid()
      ensures ok == old(Removable(dirs, files, locked, root))
      ensures ok ==> dirs == (set p | p in old(dirs) && !InSubtree(root, p))
      ensures ok ==> files == (set p | p in old(files) && !InSubtree(root, p))
      ensures !ok ==> dirs == old(dirs) && files == old(files)
    {
      ok := Removable(dirs, files, locked, root);
      if ok {
        TreeRemoveSubtree(dirs, files, root);
        dirs := set p | p in dirs && !InSubtree(root, p);
        files := set p | p in files && !InSubtree(root, p);
      }
    }
  }
}
