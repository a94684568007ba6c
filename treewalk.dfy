/**
 * The recursive directory walk of Notify::walkRecursiveDirs, as the
 * sequence of directories it hands to its callback, in call order.
 */
module TreeWalk {
  import opened Paths
  import opened Seqs

  /**
   * The part of the filesystem the walk observes: every directory, keyed by
   * its path, with the names `scandir` lists for it (these may include "."
   * and ".."). A path is a directory (`is_dir`) exactly when it is a key.
   */
  datatype FileSystem = FileSystem(dirs: map<Path, seq<string>>) {

    predicate IsDir(p: Path) {
      p in dirs
    }

    function ScanDir(p: Path): (names: seq<string>)
      requires IsDir(p)
    {
      dirs[p]
    }
  }

  /** Listings as a real directory has them: no name twice, no name holding a separator. */
  predicate WellFormed(fs: FileSystem) {
    forall d | d in fs.dirs ::
      NoDuplicates(fs.dirs[d]) && forall k | 0 <= k < |fs.dirs[d]| :: IsEntryName(fs.dirs[d][k])
  }

  /** The entries the walk never descends into. */
  predicate IsDotEntry(name: string) {
    name == "." || name == ".."
  }

  /** Directories whose path is at least `n` characters long: shrinks with every step down. */
  function Below(fs: FileSystem, n: nat): set<Path> {
    set p | p in fs.dirs && |p| >= n
  }

  lemma BelowShrinks(fs: FileSystem, dir: Path, p: Path)
    requires fs.IsDir(dir) && |p| > |dir|
    ensures Below(fs, |p|) < Below(fs, |dir|)
  {
    assert dir in Below(fs, |dir|) && dir !in Below(fs, |p|);
  }

  /**
   * The directories walkRecursiveDirs(dir, ...) passes to its handler, in
   * order: nothing for a non-directory; otherwise `dir` itself, then the walk
   * of every listed subdirectory, in listing order.
   */
  function Walk(fs: FileSystem, dir: Path): (r: seq<Path>)
    ensures !fs.IsDir(dir) ==> r == []
    ensures fs.IsDir(dir) ==> |r| > 0 && r[0] == dir
    decreases Below(fs, |dir|), 1, 0
  {
    if !fs.IsDir(dir) then []
    else [dir] + WalkEntries(fs, dir, fs.ScanDir(dir))
  }

  /** The directories visited for the listed `names` of `dir`, in order. */
  function WalkEntries(fs: FileSystem, dir: Path, names: seq<string>): (r: seq<Path>)
    requires fs.IsDir(dir)
    decreases Below(fs, |dir|), 0, |names|
  {
    if names == [] then []
    else
      WalkEntries(fs, dir, names[..|names| - 1]) + Visit(fs, dir, names[|names| - 1])
  }

  /** One iteration of the `foreach`: skip "." and "..", descend into `dir/name` if it is a directory. */
  function Visit(fs: FileSystem, dir: Path, name: string): (r: seq<Path>)
    requires fs.IsDir(dir)
    ensures IsDotEntry(name) || !fs.IsDir(Join(dir, name)) ==> r == []
    ensures r != [] ==> r[0] == Join(dir, name) && fs.IsDir(r[0])
    decreases Below(fs, |dir|), 0, 0
  {
    if IsDotEntry(name) then []
    else
      var path := Join(dir, name);
      if !fs.IsDir(path) then []
      else
        BelowShrinks(fs, dir, path);
        Walk(fs, path)
  }

  /** Everything the walk hands to its callback is a directory at or below the root. */
  lemma {:induction false} WalkStaysBelow(fs: FileSystem, dir: Path)
    ensures forall p | p in Walk(fs, dir) :: fs.IsDir(p) && AtOrUnder(dir, p)
    decreases Below(fs, |dir|), 1, 0
  {
    if fs.IsDir(dir) {
      WalkEntriesStayBelow(fs, dir, fs.ScanDir(dir));
    }
  }

  lemma {:induction false} WalkEntriesStayBelow(fs: FileSystem, dir: Path, names: seq<string>)
    requires fs.IsDir(dir)
    ensures forall p | p in WalkEntries(fs, dir, names) :: fs.IsDir(p) && Under(dir, p)
    decreases Below(fs, |dir|), 0, |names|
  {
    if names != [] {
      WalkEntriesStayBelow(fs, dir, names[..|names| - 1]);
      VisitStaysBelow(fs, dir, names[|names| - 1]);
    }
  }

  lemma {:induction false} VisitStaysBelow(fs: FileSystem, dir: Path, name: string)
    requires fs.IsDir(dir)
    ensures forall p | p in Visit(fs, dir, name) :: fs.IsDir(p) && Under(dir, p)
    decreases Below(fs, |dir|), 0, 0
  {
    var path := Join(dir, name);
    if !IsDotEntry(name) && fs.IsDir(path) {
      BelowShrinks(fs, dir, path);
      WalkStaysBelow(fs, path);
      forall p | p in Walk(fs, path)
        ensures Under(dir, p)
      {
        UnderTransitive(dir, path, p);
      }
    }
  }

  /** Walking a prefix of a listing visits a prefix of what walking the whole listing visits. */
  lemma {:induction false} WalkEntriesPrefix(fs: FileSystem, dir: Path, names: seq<string>, i: nat)
    requires fs.IsDir(dir) && i <= |names|
    ensures var head, all := WalkEntries(fs, dir, names[..i]), WalkEntries(fs, dir, names);
      |head| <= |all| && all[..|head|] == head
    decreases |names|
  {
    if i < |names| {
      var init := names[..|names| - 1];
      assert init[..i] == names[..i];
      WalkEntriesPrefix(fs, dir, init, i);
    } else {
      assert names[..i] == names;
    }
  }

  /** Every directory visited for a listing comes from the walk of one listed, non-dot subdirectory. */
  lemma {:induction false} WalkEntriesOrigin(fs: FileSystem, dir: Path, names: seq<string>, p: Path)
    requires fs.IsDir(dir) && p in WalkEntries(fs, dir, names)
    ensures exists n | n in names :: !IsDotEntry(n) && fs.IsDir(Join(dir, n)) && p in Walk(fs, Join(dir, n))
    decreases |names|
  {
    var init, last := names[..|names| - 1], names[|names| - 1];
    if p in WalkEntries(fs, dir, init) {
      WalkEntriesOrigin(fs, dir, init, p);
      var n :| n in init && !IsDotEntry(n) && fs.IsDir(Join(dir, n)) && p in Walk(fs, Join(dir, n));
      assert n in names;
    } else {
      assert p in Visit(fs, dir, last);
      assert last in names;
    }
  }

  /** The walk of a listed, non-dot subdirectory is part of what is visited for the listing. */
  lemma {:induction false} WalkEntriesIncludes(fs: FileSystem, dir: Path, names: seq<string>, n: string, p: Path)
    requires fs.IsDir(dir) && n in names && !IsDotEntry(n)
    requires p in Walk(fs, Join(dir, n))
    ensures p in WalkEntries(fs, dir, names)
    decreases |names|
  {
    var init, last := names[..|names| - 1], names[|names| - 1];
    if n != last {
      assert n in init by {
        var k :| 0 <= k < |names| && names[k] == n;
        assert init[k] == n;
      }
      WalkEntriesIncludes(fs, dir, init, n, p);
    }
  }

  /**
   * `route` is a chain of entry names leading down from `dir`: each name is
   * listed in the directory reached so far, is not "." or "..", and names a
   * directory.
   */
  predicate IsRoute(fs: FileSystem, dir: Path, route: seq<string>)
    decreases |route|
  {
    fs.IsDir(dir) &&
    (route == [] ||
     (route[0] in fs.ScanDir(dir) && !IsDotEntry(route[0]) && IsRoute(fs, Join(dir, route[0]), route[1..])))
  }

  /** The path reached from `dir` by following `route`. */
  function Follow(dir: Path, route: seq<string>): (p: Path)
    ensures route == [] ==> p == dir
    ensures route != [] ==> Under(dir, p)
    decreases |route|
  {
    if route == [] then dir
    else
      var next := Join(dir, route[0]);
      var p := Follow(next, route[1..]);
      UnderTransitive(dir, next, p);
      p
  }

  /** `p` is a directory that some route leads to from `root`. */
  ghost predicate Reachable(fs: FileSystem, root: Path, p: Path) {
    exists route :: IsRoute(fs, root, route) && Follow(root, route) == p
  }

  /** The walk visits the end of every route from its root. */
  lemma {:induction false} WalkVisitsRoute(fs: FileSystem, root: Path, route: seq<string>)
    requires IsRoute(fs, root, route)
    ensures Follow(root, route) in Walk(fs, root)
    decreases |route|
  {
    if route != [] {
      var child := Join(root, route[0]);
      WalkVisitsRoute(fs, child, route[1..]);
      WalkEntriesIncludes(fs, root, fs.ScanDir(root), route[0], Follow(child, route[1..]));
    }
  }

  /** Everything the walk visits is the end of some route from its root. */
  lemma {:induction false} WalkFollowsRoute(fs: FileSystem, root: Path, p: Path)
    requires p in Walk(fs, root)
    ensures Reachable(fs, root, p)
    decreases Below(fs, |root|)
  {
    if p == root {
      assert IsRoute(fs, root, []) && Follow(root, []) == p;
    } else {
      WalkEntriesOrigin(fs, root, fs.ScanDir(root), p);
      var n :| n in fs.ScanDir(root) && !IsDotEntry(n) && fs.IsDir(Join(root, n)) && p in Walk(fs, Join(root, n));
      var child := Join(root, n);
      BelowShrinks(fs, root, child);
      WalkFollowsRoute(fs, child, p);
      var route :| IsRoute(fs, child, route) && Follow(child, route) == p;
      var full := [n] + route;
      assert full[0] == n && full[1..] == route;
      assert IsRoute(fs, root, full) && Follow(root, full) == p;
    }
  }

  /** The walk visits exactly the directories reachable from its root. */
  lemma WalkIsReachable(fs: FileSystem, root: Path, p: Path)
    ensures p in Walk(fs, root) <==> Reachable(fs, root, p)
  {
    if p in Walk(fs, root) {
      WalkFollowsRoute(fs, root, p);
    }
    if Reachable(fs, root, p) {
      var route :| IsRoute(fs, root, route) && Follow(root, route) == p;
      WalkVisitsRoute(fs, root, route);
    }
  }

  lemma ListedIsEntryName(fs: FileSystem, dir: Path, n: string)
    requires WellFormed(fs) && fs.IsDir(dir) && n in fs.ScanDir(dir)
    ensures IsEntryName(n)
  {
    var k :| 0 <= k < |fs.ScanDir(dir)| && fs.ScanDir(dir)[k] == n;
  }

  /** On a well-formed filesystem the walk visits no directory twice. */
  lemma {:induction false} WalkNoDuplicates(fs: FileSystem, dir: Path)
    requires WellFormed(fs)
    ensures NoDuplicates(Walk(fs, dir))
    decreases Below(fs, |dir|), 1, 0
  {
    if fs.IsDir(dir) {
      var names := fs.ScanDir(dir);
      WalkEntriesNoDuplicates(fs, dir, names);
      WalkEntriesStayBelow(fs, dir, names);
      NoDuplicatesConcat([dir], WalkEntries(fs, dir, names));
    }
  }

  lemma {:induction false} WalkEntriesNoDuplicates(fs: FileSystem, dir: Path, names: seq<string>)
    requires WellFormed(fs) && fs.IsDir(dir)
    requires NoDuplicates(names) && forall k | 0 <= k < |names| :: IsEntryName(names[k])
    ensures NoDuplicates(WalkEntries(fs, dir, names))
    decreases Below(fs, |dir|), 0, |names|
  {
    if names != [] {
      var init, last := names[..|names| - 1], names[|names| - 1];
      var head, tail := WalkEntries(fs, dir, init), Visit(fs, dir, last);
      WalkEntriesNoDuplicates(fs, dir, init);
      var child := Join(dir, last);
      if !IsDotEntry(last) && fs.IsDir(child) {
        BelowShrinks(fs, dir, child);
        WalkNoDuplicates(fs, child);
        WalkStaysBelow(fs, child);
      }
      forall x | x in head
        ensures x !in tail
      {
        WalkEntriesOrigin(fs, dir, init, x);
        var n :| n in init && !IsDotEntry(n) && fs.IsDir(Join(dir, n)) && x in Walk(fs, Join(dir, n));
        var k :| 0 <= k < |init| && init[k] == n;
        assert names[k] == n;
        BelowShrinks(fs, dir, Join(dir, n));
        WalkStaysBelow(fs, Join(dir, n));
        SiblingsDisjoint(dir, n, last, x);
      }
      NoDuplicatesConcat(head, tail);
    }
  }

  /**
   * Pre-order: on a well-formed filesystem every visited directory is
   * handled before every directory below it.
   */
  lemma {:induction false} WalkParentFirst(fs: FileSystem, dir: Path, i: nat, j: nat)
    requires WellFormed(fs)
    requires i < |Walk(fs, dir)| && j < |Walk(fs, dir)|
    requires Under(Walk(fs, dir)[i], Walk(fs, dir)[j])
    ensures i < j
    decreases Below(fs, |dir|), 1, 0
  {
    var w := Walk(fs, dir);
    if i != 0 {
      WalkStaysBelow(fs, dir);
      assert w[i] in w;
      UnderTransitive(dir, w[i], w[j]);
      WalkEntriesParentFirst(fs, dir, fs.ScanDir(dir), i - 1, j - 1);
    }
  }

  lemma {:induction false} WalkEntriesParentFirst(fs: FileSystem, dir: Path, names: seq<string>, i: nat, j: nat)
    requires WellFormed(fs) && fs.IsDir(dir)
    requires NoDuplicates(names) && forall k | 0 <= k < |names| :: IsEntryName(names[k])
    requires i < |WalkEntries(fs, dir, names)| && j < |WalkEntries(fs, dir, names)|
    requires Under(WalkEntries(fs, dir, names)[i], WalkEntries(fs, dir, names)[j])
    ensures i < j
    decreases Below(fs, |dir|), 0, |names|
  {
    var init, last := names[..|names| - 1], names[|names| - 1];
    var head, tail := WalkEntries(fs, dir, init), Visit(fs, dir, last);
    var e := WalkEntries(fs, dir, names);
    assert e == head + tail;
    var child := Join(dir, last);
    if i < |head| && j < |head| {
      WalkEntriesParentFirst(fs, dir, init, i, j);
    } else if |head| <= i && |head| <= j {
      BelowShrinks(fs, dir, child);
      WalkParentFirst(fs, child, i - |head|, j - |head|);
    } else if j < |head| {
      assert e[i] == tail[i - |head|] && e[j] == head[j];
      BelowShrinks(fs, dir, child);
      WalkStaysBelow(fs, child);
      assert e[i] in tail;
      UnderTransitive(child, e[i], e[j]);
      WalkEntriesOrigin(fs, dir, init, e[j]);
      var n :| n in init && !IsDotEntry(n) && fs.IsDir(Join(dir, n)) && e[j] in Walk(fs, Join(dir, n));
      var k :| 0 <= k < |init| && init[k] == n;
      assert names[k] == n;
      BelowShrinks(fs, dir, Join(dir, n));
      WalkStaysBelow(fs, Join(dir, n));
      SiblingsDisjoint(dir, n, last, e[j]);
      assert false;
    }
  }

  /** The walk never enters `d/.` or `d/..` below any directory `d` it visits. */
  lemma {:induction false} WalkSkipsDotEntries(fs: FileSystem, root: Path, d: Path, dot: string)
    requires WellFormed(fs) && d in Walk(fs, root) && IsDotEntry(dot)
    ensures Join(d, dot) !in Walk(fs, root)
    decreases Below(fs, |root|)
  {
    var x := Join(d, dot);
    var names := fs.ScanDir(root);
    if x in Walk(fs, root) {
      WalkStaysBelow(fs, root);
      assert x != root;
      WalkEntriesOrigin(fs, root, names, x);
      var n :| n in names && !IsDotEntry(n) && fs.IsDir(Join(root, n)) && x in Walk(fs, Join(root, n));
      ListedIsEntryName(fs, root, n);
      BelowShrinks(fs, root, Join(root, n));
      WalkStaysBelow(fs, Join(root, n));
      if d == root {
        SiblingsDisjoint(root, n, dot, x);
        assert false;
      } else {
        WalkEntriesOrigin(fs, root, names, d);
        var m :| m in names && !IsDotEntry(m) && fs.IsDir(Join(root, m)) && d in Walk(fs, Join(root, m));
        ListedIsEntryName(fs, root, m);
        BelowShrinks(fs, root, Join(root, m));
        WalkSkipsDotEntries(fs, Join(root, m), d, dot);
        WalkStaysBelow(fs, Join(root, m));
        UnderTransitive(Join(root, m), d, x);
        SiblingsDisjoint(root, m, n, x);
        assert false;
      }
    }
  }

  /**
   * One more iteration of the listing loop: it appends what `Visit` yields
   * for the next name, and what is handled so far stays within the walk.
   */
  lemma WalkEntriesStep(fs: FileSystem, dir: Path, names: seq<string>, i: nat)
    requires fs.IsDir(dir) && names == fs.ScanDir(dir) && i <= |names|
    ensures |[dir] + WalkEntries(fs, dir, names[..i])| <= |Walk(fs, dir)|
    ensures i < |names| ==>
      && [dir] + WalkEntries(fs, dir, names[..i + 1]) == [dir] + WalkEntries(fs, dir, names[..i]) + Visit(fs, dir, names[i])
      && |[dir] + WalkEntries(fs, dir, names[..i + 1])| <= |Walk(fs, dir)|
  {
    WalkEntriesPrefix(fs, dir, names, i);
    if i < |names| {
      var pre := names[..i + 1];
      assert pre[..|pre| - 1] == names[..i] && pre[|pre| - 1] == names[i];
      WalkEntriesPrefix(fs, dir, names, i + 1);
      var head, tail := WalkEntries(fs, dir, names[..i]), Visit(fs, dir, names[i]);
      assert WalkEntries(fs, dir, pre) == head + tail;
      assert [dir] + (head + tail) == [dir] + head + tail;
    }
  }
}
