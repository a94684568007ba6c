# Watch registry of php-tags-server, in Dafny

This project models the watch bookkeeping of the tags server's `Notify`
class (`src/Notify.php`). `Notify` keeps two in-memory tables:

- `watchTable` maps a directory path to its inotify watch id.
- `watchReverseTable` maps a watch id back to its directory path.

Three operations use them:

- `addWatch(dir)` walks the directory tree under `dir` in pre-order
  (`walkRecursiveDirs`) and registers each directory it finds in both tables.
- `rmWatch(dir)` removes exactly that one directory from both tables. It
  throws `NotifyWatchNotFoundException` when the directory is not registered.
- `read()` turns each raw inotify event's `(wd, name)` into the full path
  `dir/name`, looking `dir` up in the reverse table.

## Layout

- `wrappers.dfy` (`Wrappers`): `Result` and `Outcome`, which stand in for the thrown exception.
- `seqs.dfy` (`Seqs`): `NoDuplicates` and two small sequence lemmas.
- `paths.dfy` (`Paths`): joins a path and a name with `/` (`DIRECTORY_SEPARATOR`). Also
  defines what "below a directory" means, and proves that two different entries of one
  directory have disjoint subtrees.
- `treewalk.dfy` (`TreeWalk`): an abstract filesystem is a map from each directory path to
  its `scandir` listing, and `is_dir(p)` holds exactly when `p` is a key. `Walk` is the
  sequence of directories the walk hands to its callback, in order. The lemmas prove:
  - the walk visits exactly the directories reachable from its root;
  - it never visits a directory twice;
  - every directory comes before the directories below it;
  - it never enters `.` or `..`.
- `registry.dfy` (`Registry`): the two tables as one value, `Tables`. It has addWatch's
  handler (`Register`), the handler applied once per walked directory (`RegisterAll`) and
  rmWatch (`Unwatch`). `Consistent` is the bijection invariant. The lemmas show which
  operations keep it.
- `events.dfy` (`Events`): the event record and the `array_map` step of `read`.
- `notify.dfy` (`Notify`): the class `Notify`. Its fields `fwd` and `rev` are the two
  tables. Its methods change them in place and are proved against the functions above. The
  file also has lemmas that combine the walk and the registry, and a worked example tree.

The operating-system calls are parameters:

- `ids` holds the answers of `inotify_add_watch`, in call order. The k-th directory the
  walk visits is registered with `ids[k]`.
- `read` takes the batch that `inotify_read` returned.

The filesystem is a fixed value that the walk only observes.

Bijection preservation rests on an assumption about the ids (`Registry.OracleAgrees`):

- re-adding a path that is already watched returns the id it already has;
- a new path gets an id that is not in use;
- one call never hands the same id to two paths.

inotify hands out watch ids per directory inode, not per path string. It therefore meets
this assumption only under three conditions. Every walked path names a different
directory. No walked directory is already watched under another path. No watched path is
stale, meaning deleted and re-created since it was registered. Two counter-cases:

- A symbolic link `/p/b` to `/p/a` makes one addWatch receive the same id twice.
- A re-created directory gets a fresh id while `watchTable` still holds the old one.

The second is exactly the case `Notify.StaleSubdirectoryBreaksConsistency` works through.

The walk lemmas about order and distinctness need real directory listings
(`TreeWalk.WellFormed`): no name twice, and no name containing `/`.

`rmWatch` does not remove the watches of directories below the one it removes.
`Notify.AddThenRemoveRootKeepsSubtree` proves that the subdirectories stay registered.
`Notify.StaleSubdirectoryBreaksConsistency` works through one concrete case. A tree is
watched. Its root alone is unwatched. The tree is then re-created and watched again with
fresh ids. The stale reverse entry of the old subdirectory id survives, so the tables are
no longer a bijection.

The model follows the code as written:

- `read` drops no events and classifies none. It only rewrites the names.
- `rmWatch` never de-registers with the operating system, because the
  `inotify_rm_watch` call is commented out.
- The code does not check `inotify_add_watch`'s result. The model does not represent a failed call (see "Left out").
- An event whose watch id has no reverse row resolves to `/name`. Swoole's `get`
  returns `false`, and `false` concatenates as the empty string.

## Model

| member | source | states |
|---|---|---|
| `Paths.Join` | src/Notify.php:77 | `$dir . DIRECTORY_SEPARATOR . $file`, also the name rewrite of line 60: the result lies strictly below `dir`, and after the separator it spells `name`. |
| `TreeWalk.FileSystem.IsDir` | src/Notify.php:68 | `is_dir` (also line 78): a path is a directory exactly when the filesystem map has it as a key. |
| `TreeWalk.FileSystem.ScanDir` | src/Notify.php:72 | `scandir` of a directory: its listing, `.` and `..` included. |
| `TreeWalk.Walk` | src/Notify.php:67-82 | A non-directory yields no handler call. A directory is itself the first directory handled. |
| `TreeWalk.WalkEntries` | src/Notify.php:73-81 | The `foreach` over the listing: the walks of the listed entries, in listing order. Its properties are proved by `WalkEntriesStayBelow`, `WalkEntriesPrefix` and `WalkEntriesStep`. |
| `TreeWalk.Visit` | src/Notify.php:74-80 | One iteration of the `foreach`. It handles nothing for `.`, `..` or a non-directory. When it handles anything, the first directory handled is `dir/name` itself. |
| `TreeWalk.Follow` | src/Notify.php:77 | The path reached by joining the names of a route one after another. A non-empty route ends strictly below its start. |
| `TreeWalk.WalkStaysBelow` | src/Notify.php:71-81 | Every handled path is a directory at or below the root of the walk. |
| `TreeWalk.WalkEntriesStayBelow` | src/Notify.php:72-81 | Every directory handled by the `foreach` over the listing is a directory strictly below the scanned one. |
| `TreeWalk.VisitStaysBelow` | src/Notify.php:74-80 | One iteration of the `foreach` handles only directories strictly below the scanned one. |
| `TreeWalk.WalkIsReachable` | src/Notify.php:71-81 | A path is handled by the walk if and only if a chain of listed, non-dot directory entries leads to it from the root. |
| `TreeWalk.WalkVisitsRoute` | src/Notify.php:71-81 | Completeness: the end of every route of listed, non-dot subdirectories from the root is handled. |
| `TreeWalk.WalkFollowsRoute` | src/Notify.php:71-81 | Soundness: every handled directory is reached from the root by such a route. |
| `TreeWalk.WalkNoDuplicates` | src/Notify.php:71-81 | On real listings the walk handles no directory twice. |
| `TreeWalk.WalkParentFirst` | src/Notify.php:71-79 | Pre-order: a directory is handled before every directory below it. |
| `TreeWalk.WalkSkipsDotEntries` | src/Notify.php:74-76 | For every handled directory `d`, `d/.` and `d/..` are never handled. |
| `TreeWalk.WalkEntriesPrefix` | src/Notify.php:73-81 | Walking a prefix of a listing handles a prefix of what the whole listing handles. |
| `TreeWalk.WalkEntriesStep` | src/Notify.php:73-81 | One more `foreach` iteration appends what that entry yields, and what is handled so far never outgrows the whole walk. |
| `Registry.Register` | src/Notify.php:35-37 | The handler body. Afterwards `watchTable[dir]` is `id` and `watchReverseTable[id]` is `dir`. The key sets grow by exactly `dir` and `id`, and every other entry keeps its value. |
| `Registry.RegisterAll` | src/Notify.php:34-38 | The handler applied once per walked directory, the k-th call receiving the k-th id. No entry's key is ever removed. |
| `Registry.Unwatch` | src/Notify.php:41-47 | Fails with `NotifyWatchNotFoundException` if and only if the path is unregistered. On success it removes the path from the forward table and its id from the reverse table, and every other entry of both tables is unchanged. |
| `Registry.UnwatchTwiceFails` | src/Notify.php:42-45 | A second rmWatch of the same path throws. |
| `Registry.UnwatchKeepsDescendants` | src/Notify.php:41-51 | Removal is exact: a registered path below the removed one stays registered with its id. |
| `Registry.UnwatchConsistent` | src/Notify.php:46-47 | rmWatch keeps the bijection between the two tables. |
| `Registry.RegisterConsistent` | src/Notify.php:35-37 | One handler call keeps the bijection when the id is the path's existing id or an unused one. |
| `Registry.RegisterAllConsistent` | src/Notify.php:33-39 | Registering distinct paths with agreeing ids keeps the bijection. |
| `Registry.RegisterAllForward` | src/Notify.php:34-36 | For distinct paths, each registered path ends up mapped to the id its own call received. |
| `Registry.RegisterAllReverse` | src/Notify.php:34-37 | For distinct ids, each id ends up mapped back to the path of its call. |
| `Registry.RegisterAllOtherPaths` | src/Notify.php:36 | A path that is not registered by the walk keeps its forward entry. |
| `Registry.RegisterAllOtherIds` | src/Notify.php:37 | An id that is not handed out keeps its reverse entry. |
| `Registry.RegisterAllKeys` | src/Notify.php:34-37 | After registering, the watched paths are the old ones plus the registered ones. The same holds for the ids. |
| `Registry.RegisterAllConcat` | src/Notify.php:71-79 | Handling two runs of directories one after the other equals handling their concatenation. This is how the recursive calls compose. |
| `Registry.ConsistentIsInjective` | src/Notify.php:36-37 | In a consistent registry no two paths share an id, and the forward table's ids are exactly the reverse table's keys. |
| `Events.DirOf` | src/Notify.php:59 | `get` of the reverse table as it enters the concatenation: the watched path, or the empty string when `get` returns `false`. Its cases are proved about `Resolve` by `ResolveWatched` (a watched id gives the directory, in a consistent registry) and `ResolveUnwatched` (no row gives `/name`). |
| `Events.Resolve` | src/Notify.php:58-61 | The `array_map` callback. It keeps `wd`, `mask` and `cookie`. The new name is strictly below the looked-up directory, and after the separator it spells the old name. |
| `Events.ResolveAll` | src/Notify.php:58-62 | The `array_map` itself keeps the batch's length. |
| `Events.ResolveAllPointwise` | src/Notify.php:58-62 | Resolution keeps the batch's length and order. Each output is its input with only `name` replaced by the reverse-table directory, `/` and the old name. |
| `Events.ResolveAllConcat` | src/Notify.php:58-62 | A structural fact about `array_map`: resolving two batches in turn equals resolving them as one, because each event is resolved independently of the others. |
| `Events.ResolveWatched` | src/Notify.php:59-60 | An event on a watched directory resolves to `dir/name`, a path directly below that directory. |
| `Events.ResolveUnwatched` | src/Notify.php:59-60 | An event whose id has no reverse row resolves to `/name`. |
| `Notify.AddWatchRegistersWalk` | src/Notify.php:33-39 | addWatch registers exactly the walk: the k-th handled directory is mapped to the k-th id, and every other path keeps its entry. |
| `Notify.AddWatchKeepsConsistent` | src/Notify.php:33-39 | addWatch keeps the bijection when the ids meet the `OracleAgrees` assumption. |
| `Notify.AddThenRemoveRootKeepsSubtree` | src/Notify.php:41-51 | After addWatch and rmWatch on the same root, every other walked directory is still watched under its id. |
| `Notify.ExampleSubWalk` | src/Notify.php:67-82 | For `/proj/sub` holding only `b.txt`, the walk handles `/proj/sub` alone. |
| `Notify.ExampleWalk` | src/Notify.php:67-82 | For `/proj` holding `a.txt` and `sub/b.txt`, the walk handles `/proj`, then `/proj/sub`. |
| `Notify.ExampleProject` | src/Notify.php:33-51 | On that tree, addWatch registers `/proj` and then `/proj/sub`. rmWatch of `/proj/sub` then leaves `/proj` watched. |
| `Notify.StaleSubdirectoryBreaksConsistency` | src/Notify.php:41-51 | Consider removing only the root and then re-adding the re-created tree with fresh ids. The stale reverse entry survives, and the tables are no longer a bijection. |
| `Notify.Notify.constructor` | src/Notify.php:20-31 | Both tables start empty, which is consistent. |
| `Notify.Notify.HandleDir` | src/Notify.php:34-38 | The handler sets `watchTable[dir] := id` and `watchReverseTable[id] := dir`. |
| `Notify.Notify.WalkRecursiveDirs` | src/Notify.php:67-82 | The recursive `foreach` walk changes the tables exactly as registering `Walk(dir)`, one id per call, in order, and it consumes that many ids. |
| `Notify.Notify.VisitEntry` | src/Notify.php:74-80 | One iteration of the `foreach`: skipping `.` and `..`, recursing into a subdirectory, ignoring a file; it changes the tables exactly as registering what `Visit` yields, and consumes that many ids. |
| `Notify.Notify.AddWatch` | src/Notify.php:33-39 | Registers exactly the walk, leaves the tables unchanged for a non-directory, maps each walked directory to its id, and keeps the bijection under the `OracleAgrees` assumption. |
| `Notify.Notify.RmWatch` | src/Notify.php:41-51 | Throws and changes nothing for an unregistered path. Otherwise the new tables are `Unwatch` of the old ones, and the bijection is kept. |
| `Notify.Notify.Read` | src/Notify.php:53-65 | Returns the batch with every name resolved against the current reverse table, keeping length, order and the other fields. |

## Left out

- The `inotify_init`, `inotify_add_watch` and `inotify_read` system calls (src/Notify.php:21, 35, 55) are operating-system calls. The returned ids are the `ids` parameter, and the read batch is `Read`'s `batch` parameter.
- The failure of `inotify_add_watch`, which returns `false`, is not modelled. The id sequence always supplies an integer id.
- The commented-out `inotify_rm_watch` (src/Notify.php:50) is not modelled, because the code does not call it.
- The `$mask` parameter of `addWatch` and `rmWatch` is not modelled. `addWatch` only forwards it to `inotify_add_watch`, and `rmWatch` never uses it.
- The Swoole `Lock` around `inotify_read` (src/Notify.php:22, 54-56) is left out, because it only serializes concurrent readers.
- The Swoole `Table` limits are left out, and the tables are unbounded maps. These limits are the 1024*1024 row capacity, the column sizes (8-byte `id`, 256-byte `dir`) and the table's key-length limit (src/Notify.php:24-30).
- `scandir` failing on an unreadable directory is not modelled. The closest the model comes is an empty listing.
- Symbolic links and cycles are not modelled. The filesystem map has no notion of inodes, so two keys may stand for one directory reached through a non-cyclic link. The model then treats them as two directories, and the bijection holds only under the id assumption above. Paths grow with every step down, so the model cannot express a cycle.
- The filesystem changing while the walk runs is not modelled. The walk sees one fixed snapshot.
- `walkRecursiveDirs` accepts any callback, but only addWatch's callback (`HandleDir`) is modelled, because it is the only one the code passes.
- `src/ServerCommand.php` is not part of this model: console setup, the HTTP server, coroutines, the channel queue, the output lock and the regex-based file scan are process bootstrap, I/O and concurrency.
- `src/Parser.php` is not part of this model. It is a wrapper over PHP's tokenizer.
- The event classification (MKDIR/RMDIR/MOD/ADD/DEL) and the consumer that reacts to it are not modelled, because they do not appear in the code.
