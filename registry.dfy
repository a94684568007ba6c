/**
 * The watch bookkeeping of Notify as values: the forward table
 * (watchTable, path -> watch id) and the reverse table
 * (watchReverseTable, watch id -> path), and what addWatch's handler and
 * rmWatch do to them.
 */
module Registry {
  import opened Wrappers
  import opened Paths
  import opened Seqs

  /** A watch descriptor as inotify_add_watch returns it. */
  type WatchId = int

  datatype Tables = Tables(fwd: map<Path, WatchId>, rev: map<WatchId, Path>)

  /** The tables right after construction. */
  const Empty: Tables := Tables(map[], map[])

  /** The exception rmWatch throws for a path that is not watched. */
  datatype NotifyError = NotifyWatchNotFoundException

  /**
   * The two tables describe one bijection: every watched path maps to an id
   * that maps back to it, and every id maps to a path that maps back to it.
   */
  predicate Consistent(t: Tables) {
    && (forall d | d in t.fwd :: t.fwd[d] in t.rev && t.rev[t.fwd[d]] == d)
    && (forall i | i in t.rev :: t.rev[i] in t.fwd && t.fwd[t.rev[i]] == i)
  }

  /** addWatch's handler for one directory, once inotify_add_watch has returned `id`. */
  function Register(t: Tables, dir: Path, id: WatchId): (r: Tables)
    ensures dir in r.fwd && r.fwd[dir] == id && id in r.rev && r.rev[id] == dir
    ensures r.fwd.Keys == t.fwd.Keys + {dir} && r.rev.Keys == t.rev.Keys + {id}
    ensures forall d | d in t.fwd && d != dir :: r.fwd[d] == t.fwd[d]
    ensures forall i | i in t.rev && i != id :: r.rev[i] == t.rev[i]
  {
    Tables(t.fwd[dir := id], t.rev[id := dir])
  }

  /** The handler applied to each of `dirs` in turn, the k-th call receiving `ids[k]`. */
  function RegisterAll(t: Tables, dirs: seq<Path>, ids: seq<WatchId>): (r: Tables)
    requires |dirs| <= |ids|
    ensures t.fwd.Keys <= r.fwd.Keys && t.rev.Keys <= r.rev.Keys
    decreases |dirs|
  {
    if dirs == [] then t else RegisterAll(Register(t, dirs[0], ids[0]), dirs[1..], ids[1..])
  }

  /** rmWatch: drop `dir` and its id from both tables, or fail when `dir` is not watched. */
  function Unwatch(t: Tables, dir: Path): (r: Result<Tables, NotifyError>)
    ensures r.Failure? <==> dir !in t.fwd
    ensures r.Failure? ==> r.error == NotifyWatchNotFoundException
    ensures r.Success? ==>
      && dir !in r.value.fwd && t.fwd[dir] !in r.value.rev
      && (forall d | d != dir :: (d in r.value.fwd <==> d in t.fwd))
      && (forall d | d in r.value.fwd :: r.value.fwd[d] == t.fwd[d])
      && (forall i | i != t.fwd[dir] :: (i in r.value.rev <==> i in t.rev))
      && (forall i | i in r.value.rev :: r.value.rev[i] == t.rev[i])
  {
    if dir !in t.fwd then Failure(NotifyWatchNotFoundException)
    else Success(Tables(t.fwd - {dir}, t.rev - {t.fwd[dir]}))
  }

  /**
   * The assumption about the ids inotify_add_watch returns: re-adding a path
   * that is already watched yields its existing id, a new path gets an id
   * not in use, and no id is handed to two of the paths. inotify meets it
   * when every path names its own directory and no watched path is stale.
   */
  predicate OracleAgrees(t: Tables, dirs: seq<Path>, ids: seq<WatchId>)
    requires |dirs| <= |ids|
  {
    && NoDuplicates(ids[..|dirs|])
    && forall k | 0 <= k < |dirs| ::
         if dirs[k] in t.fwd then ids[k] == t.fwd[dirs[k]] else ids[k] !in t.rev
  }

  lemma {:induction false} RegisterAllConcat(t: Tables, a: seq<Path>, b: seq<Path>, ids: seq<WatchId>)
    requires |a| + |b| <= |ids|
    ensures RegisterAll(t, a + b, ids) == RegisterAll(RegisterAll(t, a, ids), b, ids[|a|..])
    decreases |a|
  {
    if a == [] {
      assert a + b == b && ids[|a|..] == ids;
    } else {
      assert (a + b)[0] == a[0] && (a + b)[1..] == a[1..] + b;
      assert ids[1..][|a| - 1..] == ids[|a|..];
      RegisterAllConcat(Register(t, a[0], ids[0]), a[1..], b, ids[1..]);
    }
  }

  /** Registering paths leaves every other path's forward entry as it was. */
  lemma {:induction false} RegisterAllOtherPaths(t: Tables, dirs: seq<Path>, ids: seq<WatchId>, d: Path)
    requires |dirs| <= |ids| && d !in dirs
    ensures var r := RegisterAll(t, dirs, ids);
      (d in r.fwd <==> d in t.fwd) && (d in t.fwd ==> r.fwd[d] == t.fwd[d])
    decreases |dirs|
  {
    if dirs != [] {
      RegisterAllOtherPaths(Register(t, dirs[0], ids[0]), dirs[1..], ids[1..], d);
    }
  }

  /** Registering leaves the reverse entry of every id it does not hand out as it was. */
  lemma {:induction false} RegisterAllOtherIds(t: Tables, dirs: seq<Path>, ids: seq<WatchId>, i: WatchId)
    requires |dirs| <= |ids| && i !in ids[..|dirs|]
    ensures var r := RegisterAll(t, dirs, ids);
      (i in r.rev <==> i in t.rev) && (i in t.rev ==> r.rev[i] == t.rev[i])
    decreases |dirs|
  {
    if dirs != [] {
      assert ids[1..][..|dirs| - 1] == ids[..|dirs|][1..];
      RegisterAllOtherIds(Register(t, dirs[0], ids[0]), dirs[1..], ids[1..], i);
    }
  }

  /** With distinct paths, each registered path ends up mapped to the id its own call received. */
  lemma {:induction false} RegisterAllForward(t: Tables, dirs: seq<Path>, ids: seq<WatchId>)
    requires |dirs| <= |ids| && NoDuplicates(dirs)
    ensures var r := RegisterAll(t, dirs, ids);
      forall k | 0 <= k < |dirs| :: dirs[k] in r.fwd && r.fwd[dirs[k]] == ids[k]
    decreases |dirs|
  {
    if dirs != [] {
      var t' := Register(t, dirs[0], ids[0]);
      RegisterAllForward(t', dirs[1..], ids[1..]);
      assert dirs[0] !in dirs[1..] by {
        forall k | 0 <= k < |dirs[1..]| ensures dirs[1..][k] != dirs[0] {
          assert dirs[1..][k] == dirs[k + 1];
        }
      }
      RegisterAllOtherPaths(t', dirs[1..], ids[1..], dirs[0]);
    }
  }

  /** With distinct ids, each handed-out id ends up mapped back to the path of its call. */
  lemma {:induction false} RegisterAllReverse(t: Tables, dirs: seq<Path>, ids: seq<WatchId>)
    requires |dirs| <= |ids| && NoDuplicates(ids[..|dirs|])
    ensures var r := RegisterAll(t, dirs, ids);
      forall k | 0 <= k < |dirs| :: ids[k] in r.rev && r.rev[ids[k]] == dirs[k]
    decreases |dirs|
  {
    if dirs != [] {
      var t' := Register(t, dirs[0], ids[0]);
      assert ids[1..][..|dirs| - 1] == ids[..|dirs|][1..];
      RegisterAllReverse(t', dirs[1..], ids[1..]);
      var rest := ids[1..][..|dirs| - 1];
      assert ids[0] !in rest by {
        forall k | 0 <= k < |rest| ensures rest[k] != ids[0] {
          assert rest[k] == ids[..|dirs|][k + 1];
          assert ids[0] == ids[..|dirs|][0];
        }
      }
      RegisterAllOtherIds(t', dirs[1..], ids[1..], ids[0]);
    }
  }

  /** One handler call keeps the bijection when the id is the path's existing one or an unused one. */
  lemma RegisterConsistent(t: Tables, dir: Path, id: WatchId)
    requires Consistent(t)
    requires if dir in t.fwd then id == t.fwd[dir] else id !in t.rev
    ensures Consistent(Register(t, dir, id))
  {
    if dir in t.fwd {
      assert Register(t, dir, id) == t;
    }
  }

  /** Registering distinct paths with ids meeting `OracleAgrees` keeps the bijection. */
  lemma {:induction false} RegisterAllConsistent(t: Tables, dirs: seq<Path>, ids: seq<WatchId>)
    requires Consistent(t) && |dirs| <= |ids| && NoDuplicates(dirs) && OracleAgrees(t, dirs, ids)
    ensures Consistent(RegisterAll(t, dirs, ids))
    decreases |dirs|
  {
    if dirs != [] {
      RegisterConsistent(t, dirs[0], ids[0]);
      var t' := Register(t, dirs[0], ids[0]);
      var dirs', ids' := dirs[1..], ids[1..];
      assert ids'[..|dirs'|] == ids[..|dirs|][1..];
      forall k | 0 <= k < |dirs'|
        ensures if dirs'[k] in t'.fwd then ids'[k] == t'.fwd[dirs'[k]] else ids'[k] !in t'.rev
      {
        assert dirs'[k] == dirs[k + 1] != dirs[0];
        assert ids'[k] == ids[..|dirs|][k + 1] != ids[..|dirs|][0] == ids[0];
      }
      RegisterAllConsistent(t', dirs', ids');
    }
  }

  /** rmWatch keeps the bijection. */
  lemma UnwatchConsistent(t: Tables, dir: Path)
    requires Consistent(t) && Unwatch(t, dir).Success?
    ensures Consistent(Unwatch(t, dir).value)
  {
  }

  /** A second rmWatch of the same path throws, whatever the first one did. */
  lemma UnwatchTwiceFails(t: Tables, dir: Path)
    requires Unwatch(t, dir).Success?
    ensures Unwatch(Unwatch(t, dir).value, dir) == Failure(NotifyWatchNotFoundException)
  {
  }

  /** rmWatch removes the exact path only: every watched path below it stays watched with its id. */
  lemma UnwatchKeepsDescendants(t: Tables, dir: Path, d: Path)
    requires Unwatch(t, dir).Success? && d in t.fwd && Under(dir, d)
    ensures d in Unwatch(t, dir).value.fwd && Unwatch(t, dir).value.fwd[d] == t.fwd[d]
  {
  }

  /** After registering, the watched paths are the old ones plus the registered ones, and likewise for ids. */
  lemma {:induction false} RegisterAllKeys(t: Tables, dirs: seq<Path>, ids: seq<WatchId>)
    requires |dirs| <= |ids|
    ensures var r := RegisterAll(t, dirs, ids);
      && (forall d :: d in r.fwd <==> d in t.fwd || d in dirs)
      && (forall i :: i in r.rev <==> i in t.rev || i in ids[..|dirs|])
    decreases |dirs|
  {
    if dirs != [] {
      assert ids[1..][..|dirs| - 1] == ids[..|dirs|][1..];
      assert forall d :: d in dirs <==> d == dirs[0] || d in dirs[1..];
      assert forall i :: i in ids[..|dirs|] <==> i == ids[0] || i in ids[..|dirs|][1..];
      RegisterAllKeys(Register(t, dirs[0], ids[0]), dirs[1..], ids[1..]);
    }
  }

  /** A consistent registry shares no id between two paths, and its ids are exactly the reverse keys. */
  lemma ConsistentIsInjective(t: Tables)
    requires Consistent(t)
    ensures forall d, e | d in t.fwd && e in t.fwd && d != e :: t.fwd[d] != t.fwd[e]
    ensures t.fwd.Values == t.rev.Keys
  {
    forall i | i in t.rev.Keys ensures i in t.fwd.Values {
      assert t.fwd[t.rev[i]] == i;
    }
  }
}
