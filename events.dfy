/** The name-resolution step of Notify::read. */
module Events {
  import opened Paths
  import opened Registry

  /** One record returned by inotify_read: the keys wd, mask, cookie and name. */
  datatype Event = Event(wd: WatchId, mask: int, cookie: int, name: string)

  /**
   * `$this->watchReverseTable->get($event['wd'], 'dir')` as it enters the
   * concatenation: the watched path, or "" when the id has no row (get
   * returns false, which concatenates as the empty string).
   */
  function DirOf(rev: map<WatchId, Path>, wd: WatchId): (r: Path) {
    if wd in rev then rev[wd] else ""
  }

  /** The array_map callback: `name` becomes `dir . DIRECTORY_SEPARATOR . name`. */
  function Resolve(rev: map<WatchId, Path>, e: Event): (r: Event)
    ensures r.wd == e.wd && r.mask == e.mask && r.cookie == e.cookie
    ensures Under(DirOf(rev, e.wd), r.name) && r.name[|DirOf(rev, e.wd)| + 1..] == e.name
  {
    e.(name := Join(DirOf(rev, e.wd), e.name))
  }

  /** array_map of the callback over one batch. */
  function ResolveAll(rev: map<WatchId, Path>, events: seq<Event>): (r: seq<Event>)
    ensures |r| == |events|
    decreases |events|
  {
    if events == [] then [] else [Resolve(rev, events[0])] + ResolveAll(rev, events[1..])
  }

  /**
   * Resolution keeps the length and order of the batch; the k-th output is
   * the k-th input with only its name replaced by the watched directory,
   * a separator and the old name.
   */
  lemma {:induction false} ResolveAllPointwise(rev: map<WatchId, Path>, events: seq<Event>)
    ensures var r := ResolveAll(rev, events);
      && |r| == |events|
      && forall k | 0 <= k < |r| ::
           && r[k].wd == events[k].wd && r[k].mask == events[k].mask && r[k].cookie == events[k].cookie
           && r[k].name == DirOf(rev, events[k].wd) + [Separator] + events[k].name
    decreases |events|
  {
    if events != [] {
      ResolveAllPointwise(rev, events[1..]);
      var r := ResolveAll(rev, events);
      assert forall k | 1 <= k < |r| :: r[k] == ResolveAll(rev, events[1..])[k - 1];
    }
  }

  /** Resolving two batches one after the other is resolving them as one. */
  lemma {:induction false} ResolveAllConcat(rev: map<WatchId, Path>, a: seq<Event>, b: seq<Event>)
    ensures ResolveAll(rev, a + b) == ResolveAll(rev, a) + ResolveAll(rev, b)
    decreases |a|
  {
    if a == [] {
      assert a + b == b;
    } else {
      assert (a + b)[0] == a[0] && (a + b)[1..] == a[1..] + b;
      ResolveAllConcat(rev, a[1..], b);
    }
  }

  /** An event on a watched directory resolves to a path directly below that directory. */
  lemma ResolveWatched(t: Tables, d: Path, e: Event)
    requires Consistent(t) && d in t.fwd && e.wd == t.fwd[d]
    ensures Resolve(t.rev, e).name == Join(d, e.name)
    ensures Under(d, Resolve(t.rev, e).name)
  {
  }

  /** An event whose id has no reverse entry resolves to the name under the filesystem root. */
  lemma ResolveUnwatched(rev: map<WatchId, Path>, e: Event)
    requires e.wd !in rev
    ensures Resolve(rev, e).name == [Separator] + e.name
  {
  }
}
