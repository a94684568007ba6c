/**
 * The Notify class: the two watch tables as fields, updated in place by
 * addWatch (through the recursive walk and its handler) and rmWatch, and
 * read by read.
 */
module Notify {
  import opened Wrappers
  import opened Paths
  import opened Seqs
  import opened TreeWalk
  import opened Registry
  import opened Events

  class Notify {
    /** watchTable: directory path -> watch id. */
    var fwd: map<Path, WatchId>
    /** watchReverseTable: watch id -> directory path. */
    var rev: map<WatchId, Path>

    function State(): Tables
      reads this
    {
      Tables(fwd, rev)
    }

    constructor ()
      ensures State() == Empty && Consistent(State())
    {
      fwd := map[];
      rev := map[];
    }

    /** The closure addWatch hands to the walk, after inotify_add_watch returned `id` for `dir`. */
    method HandleDir(dir: Path, id: WatchId)
      modifies this
      ensures State() == Register(old(State()), dir, id)
    {
      fwd := fwd[dir := id];
      rev := rev[id := dir];
    }

    /**
     * walkRecursiveDirs with addWatch's handler. `ids` holds the answers of
     * inotify_add_watch in call order; the ones this walk does not consume
     * are returned.
     */
    method WalkRecursiveDirs(fs: FileSystem, dir: Path, ids: seq<WatchId>) returns (rest: seq<WatchId>)
      requires |Walk(fs, dir)| <= |ids|
      modifies this
      ensures State() == RegisterAll(old(State()), Walk(fs, dir), ids)
      ensures rest == ids[|Walk(fs, dir)|..]
      decreases Below(fs, |dir|), 1
    {
      if !fs.IsDir(dir) {
        return ids;
      }
      ghost var t0 := State();
      HandleDir(dir, ids[0]);
      rest := ids[1..];
      var files := fs.ScanDir(dir);
      ghost var done := [dir];
      WalkEntriesStep(fs, dir, files, 0);
      var i := 0;
      while i < |files|
        invariant 0 <= i <= |files|
        invariant done == [dir] + WalkEntries(fs, dir, files[..i])
        invariant |done| <= |ids| && rest == ids[|done|..]
        invariant State() == RegisterAll(t0, done, ids)
      {
        WalkEntriesStep(fs, dir, files, i);
        ghost var visited := Visit(fs, dir, files[i]);
        ghost var next := done + visited;
        RegisterAllConcat(t0, done, visited, ids);
        DropDrop(ids, |done|, |visited|);
        rest := VisitEntry(fs, dir, files[i], rest);
        done := next;
        i := i + 1;
      }
      assert files[..i] == files;
    }

    /**
     * One iteration of walkRecursiveDirs' `foreach`: skip "." and "..",
     * recurse into `dir/file` when it is a directory.
     */
    method VisitEntry(fs: FileSystem, dir: Path, file: string, ids: seq<WatchId>) returns (rest: seq<WatchId>)
      requires fs.IsDir(dir) && |Visit(fs, dir, file)| <= |ids|
      modifies this
      ensures State() == RegisterAll(old(State()), Visit(fs, dir, file), ids)
      ensures rest == ids[|Visit(fs, dir, file)|..]
      decreases Below(fs, |dir|), 0
    {
      if file == "." || file == ".." {
        return ids;
      }
      var filepath := Join(dir, file);
      if fs.IsDir(filepath) {
        BelowShrinks(fs, dir, filepath);
        rest := WalkRecursiveDirs(fs, filepath, ids);
      } else {
        rest := ids;
      }
    }

    /**
     * addWatch: register every directory the walk from `dir` visits; the
     * k-th one receives `ids[k]`, the id inotify_add_watch returned for it.
     */
    method AddWatch(fs: FileSystem, dir: Path, ids: seq<WatchId>)
      requires |Walk(fs, dir)| <= |ids|
      modifies this
      ensures State() == RegisterAll(old(State()), Walk(fs, dir), ids)
      ensures !fs.IsDir(dir) ==> State() == old(State())
      ensures forall d :: d in fwd <==> d in old(fwd) || d in Walk(fs, dir)
      ensures WellFormed(fs) ==>
        forall k | 0 <= k < |Walk(fs, dir)| :: Walk(fs, dir)[k] in fwd && fwd[Walk(fs, dir)[k]] == ids[k]
      ensures WellFormed(fs) && old(Consistent(State())) && old(OracleAgrees(State(), Walk(fs, dir), ids)) ==>
        && Consistent(State())
        && forall k | 0 <= k < |Walk(fs, dir)| :: ids[k] in rev && rev[ids[k]] == Walk(fs, dir)[k]
    {
      ghost var before := State();
      var _ := WalkRecursiveDirs(fs, dir, ids);
      RegisterAllKeys(before, Walk(fs, dir), ids);
      if WellFormed(fs) {
        AddWatchRegistersWalk(before, fs, dir, ids);
        if Consistent(before) && OracleAgrees(before, Walk(fs, dir), ids) {
          AddWatchKeepsConsistent(before, fs, dir, ids);
          WalkNoDuplicates(fs, dir);
          RegisterAllReverse(before, Walk(fs, dir), ids);
        }
      }
    }

    /** rmWatch: remove exactly `dir` from both tables, or throw when it is not watched. */
    method RmWatch(dir: Path) returns (outcome: Outcome<NotifyError>)
      modifies this
      ensures outcome.Fail? <==> dir !in old(fwd)
      ensures outcome.Fail? ==> outcome.error == NotifyWatchNotFoundException && State() == old(State())
      ensures outcome.Pass? ==> Unwatch(old(State()), dir) == Success(State())
      ensures old(Consistent(State())) ==> Consistent(State())
    {
      if dir !in fwd {
        return Fail(NotifyWatchNotFoundException);
      }
      ghost var before := State();
      var id := fwd[dir];
      fwd := fwd - {dir};
      rev := rev - {id};
      if Consistent(before) {
        UnwatchConsistent(before, dir);
      }
      return Pass;
    }

    /** read, given the batch inotify_read returned: the names resolved against the reverse table. */
    method Read(batch: seq<Event>) returns (events: seq<Event>)
      ensures events == ResolveAll(rev, batch)
      ensures |events| == |batch|
      ensures forall k | 0 <= k < |events| ::
        events[k] == batch[k].(name := DirOf(rev, batch[k].wd) + [Separator] + batch[k].name)
    {
      events := ResolveAll(rev, batch);
      ResolveAllPointwise(rev, batch);
    }
  }

  /**
   * addWatch on a well-formed tree registers exactly the walk: the k-th
   * visited directory is mapped to the k-th id, every other path keeps its
   * entry, and nothing else becomes watched.
   */
  lemma AddWatchRegistersWalk(t: Tables, fs: FileSystem, dir: Path, ids: seq<WatchId>)
    requires WellFormed(fs) && |Walk(fs, dir)| <= |ids|
    ensures var w, after := Walk(fs, dir), RegisterAll(t, Walk(fs, dir), ids);
      && (forall k | 0 <= k < |w| :: w[k] in after.fwd && after.fwd[w[k]] == ids[k])
      && (forall d | d !in w :: (d in after.fwd <==> d in t.fwd) && (d in t.fwd ==> after.fwd[d] == t.fwd[d]))
  {
    var w := Walk(fs, dir);
    WalkNoDuplicates(fs, dir);
    RegisterAllForward(t, w, ids);
    forall d | d !in w
      ensures var after := RegisterAll(t, w, ids);
        (d in after.fwd <==> d in t.fwd) && (d in t.fwd ==> after.fwd[d] == t.fwd[d])
    {
      RegisterAllOtherPaths(t, w, ids, d);
    }
  }

  /** addWatch keeps the bijection when the ids meet `OracleAgrees`. */
  lemma AddWatchKeepsConsistent(t: Tables, fs: FileSystem, dir: Path, ids: seq<WatchId>)
    requires WellFormed(fs) && |Walk(fs, dir)| <= |ids|
    requires Consistent(t) && OracleAgrees(t, Walk(fs, dir), ids)
    ensures Consistent(RegisterAll(t, Walk(fs, dir), ids))
  {
    WalkNoDuplicates(fs, dir);
    RegisterAllConsistent(t, Walk(fs, dir), ids);
  }

  /**
   * rmWatch does not purge recursively: after addWatch on `root` and
   * rmWatch on `root`, every other directory of the walk is still watched,
   * under the id it was registered with.
   */
  lemma AddThenRemoveRootKeepsSubtree(t: Tables, fs: FileSystem, root: Path, ids: seq<WatchId>)
    requires WellFormed(fs) && fs.IsDir(root) && |Walk(fs, root)| <= |ids|
    ensures var after := RegisterAll(t, Walk(fs, root), ids);
      && Unwatch(after, root).Success?
      && forall k | 1 <= k < |Walk(fs, root)| ::
           Walk(fs, root)[k] in Unwatch(after, root).value.fwd
           && Unwatch(after, root).value.fwd[Walk(fs, root)[k]] == ids[k]
  {
    var w := Walk(fs, root);
    WalkNoDuplicates(fs, root);
    RegisterAllForward(t, w, ids);
    assert forall k | 1 <= k < |w| :: w[k] != w[0];
  }

  /** An example tree: `/proj` holds the file `a.txt` and the directory `sub`, which holds `b.txt`. */
  const ExampleTree: FileSystem :=
    FileSystem(map["/proj" := [".", "..", "a.txt", "sub"], "/proj/sub" := [".", "..", "b.txt"]])

  /** The walk of the example tree from `/proj/sub`: only `b.txt` is listed, so it handles `/proj/sub` alone. */
  lemma ExampleSubWalk()
    ensures Walk(ExampleTree, "/proj/sub") == ["/proj/sub"]
  {
    var fs := ExampleTree;
    var sub := fs.ScanDir("/proj/sub");
    assert Join("/proj/sub", "b.txt") !in fs.dirs;
    assert sub[..2][..1] == ["."] && sub[..2] == [".", ".."] && sub[..3] == sub;
    assert WalkEntries(fs, "/proj/sub", sub[..2][..1]) == [];
    assert WalkEntries(fs, "/proj/sub", sub[..2]) == [];
    assert WalkEntries(fs, "/proj/sub", sub) == [];
  }

  /** The walk of the example tree from `/proj`: `a.txt` is skipped, `sub` is entered. */
  lemma ExampleWalk()
    ensures Walk(ExampleTree, "/proj") == ["/proj", "/proj/sub"]
  {
    var fs := ExampleTree;
    var top := fs.ScanDir("/proj");
    ExampleSubWalk();
    assert Join("/proj", "sub") == "/proj/sub";
    assert Join("/proj", "a.txt") !in fs.dirs;
    assert top[..3][..2][..1] == ["."] && top[..3][..2] == [".", ".."] && top[..3] == [".", "..", "a.txt"] && top[..4] == top;
    assert WalkEntries(fs, "/proj", top[..3][..2][..1]) == [];
    assert WalkEntries(fs, "/proj", top[..3][..2]) == [];
    assert WalkEntries(fs, "/proj", top[..3]) == [];
    assert WalkEntries(fs, "/proj", top) == ["/proj/sub"];
  }

  /**
   * On the example tree, addWatch on `/proj` calls the handler for `/proj`
   * and then for `/proj/sub`; rmWatch on `/proj/sub` then leaves `/proj`
   * watched.
   */
  lemma ExampleProject(t: Tables, a: WatchId, b: WatchId)
    ensures |Walk(ExampleTree, "/proj")| == 2
    ensures RegisterAll(t, Walk(ExampleTree, "/proj"), [a, b]) == Register(Register(t, "/proj", a), "/proj/sub", b)
    ensures var after := Register(Register(t, "/proj", a), "/proj/sub", b);
      && Unwatch(after, "/proj/sub").Success?
      && "/proj" in Unwatch(after, "/proj/sub").value.fwd
      && "/proj/sub" !in Unwatch(after, "/proj/sub").value.fwd
  {
    ExampleWalk();
    assert "/proj" != "/proj/sub";
    var w: seq<Path>, ids: seq<WatchId> := ["/proj", "/proj/sub"], [a, b];
    assert w[1..] == ["/proj/sub"] && ids[1..] == [b] && w[1..][1..] == [];
    assert RegisterAll(t, w, ids) == RegisterAll(Register(t, "/proj", a), ["/proj/sub"], [b]);
  }

  /**
   * Why rmWatch's exact removal matters: after addWatch on `/proj` and
   * rmWatch on `/proj` alone, `/proj/sub` is still registered under id 2.
   * Re-creating the tree gives new directories and so new ids (3 and 4);
   * addWatch then overwrites the forward entry of `/proj/sub` but the stale
   * reverse entry for id 2 survives, and the tables are no longer a
   * bijection.
   */
  lemma StaleSubdirectoryBreaksConsistency()
    ensures var added := Register(Register(Empty, "/proj", 1), "/proj/sub", 2);
      && Consistent(added)
      && Unwatch(added, "/proj").Success?
      && var readded := Register(Register(Unwatch(added, "/proj").value, "/proj", 3), "/proj/sub", 4);
         && 2 in readded.rev && readded.rev[2] == "/proj/sub"
         && readded.fwd["/proj/sub"] == 4
         && !Consistent(readded)
  {
    assert "/proj" != "/proj/sub";
    RegisterConsistent(Empty, "/proj", 1);
    RegisterConsistent(Register(Empty, "/proj", 1), "/proj/sub", 2);
  }
}
