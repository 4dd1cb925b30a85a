# Folder watcher: the poll-and-compare snapshot, in Dafny

Watch.py watches a folder by polling. On the first crawl, `FileList.add_list`
records every path the directory walk returns, with its `os.stat` value, and logs
each one as "found". On every later crawl, `FileList.compare` reconciles the
recorded list with the new walk in two passes:

1. For each incoming path, the inner loop looks for a tracked `File` with that
   path and keeps the last match. If the stored stat value differs from the
   current one, the stored value is overwritten and "modified" is logged. If no
   entry has that path, a new `File` is appended and "added" is logged.
2. Every tracked entry whose path is not in the new walk is logged as "removed"
   and dropped.

This project models that core:

| file | module | what it holds |
|---|---|---|
| events.dfy | `Events` | event kinds, the option → kind mapping of `log`, and the log-line text |
| config.dfy | `Config` | clamping of the depth and frequency arguments |
| snapshot.dfy | `Snapshot` | the list as a value (`seq<Entry>`) and the two passes as functions (`Step`, `Pass1`, `Prune`, `Compare`) |
| reconcile.dfy | `Reconcile` | what one `compare` cycle guarantees, proved about `Snapshot.Compare` |
| watch.dfy | `Watch` | the classes `File` and `FileList`; their methods update a `seq<File>` field and File objects in place, and each is proved against `Snapshot` |
| removal.dfy | `RemovalQuirk` | pass 2 as written (it removes from the list while iterating over it), with a counterexample |

The metadata source `os.stat` becomes a parameter `stat: Path -> StatResult`.
It is one fixed function per crawl. `StatResult` holds the ten integer fields of
the tuple that Python compares when it compares two `os.stat_result` values. The
log becomes the sequence of `Event(path, kind)` values that each method returns.

Three points where the model departs from the source:

- `compare` begins with `if self.length == 0:` (Watch.py:89). That compares the
  bound method `length` with 0, which is never equal, so the "empty list" branch
  is dead and both passes always run. The model has no such branch.
  `Reconcile.EmptyListCompare` proves that on an empty list the two passes do
  what the dead branch meant to do, as long as the walk repeats no path.
- Pass 2 removes from `self.list` while iterating over it (Watch.py:107-110).
  Python then skips the entry after each removed one (see Findings).
  `Watch.FileList.DropAbsent` and `Snapshot.Prune` model the intended
  behaviour: collect the entries to keep, then replace the list.
  `RemovalQuirk` models the loop as written.
- In the source, `FileList.list` is a class attribute, so all instances share
  it (Watch.py:37). Here it is an instance field. The program creates only one
  `FileList`.

The lookup keeps the last match, as the source's inner loop does
(`Snapshot.LastMatch`). Several cycle-level theorems assume that tracked paths
are unique (`Snapshot.Unique`). `Reconcile.FirstCrawl` proves the first crawl
establishes this, and `Reconcile.CompareReportsOnce` proves `compare` keeps it.
A directory walk never repeats a path.

## Model

| member | source | states |
|---|---|---|
| `Events.Log` | Watch.py:13-33 | Options 1, 2, 3 and 4 each emit exactly one event for the file name. Its kind is the one whose code is the option (added, removed, modified, found). Any other option emits nothing. |
| `Events.Line` | Watch.py:23-33 | The log line, without the date, is the path, a space, then the kind's message: "was added.", "was removed.", "was modified." or "was found.". |
| `Events.LineNamesKind` | Watch.py:22-33 | Two log lines about the same path are equal exactly when the events have the same kind, so each line names its kind. |
| `Config.ClampDepth` | Watch.py:230 | The depth is always in 0..10. An in-range value is kept. Any other value becomes 5. |
| `Config.ClampFrequency` | Watch.py:231 | The frequency is always in 1..3600. An in-range value is kept. Any other value becomes 15. |
| `Watch.File.constructor` | Watch.py:117-125 | A new File holds the given path and stat value. |
| `Watch.File.SameName` | Watch.py:127-134 | True exactly when the paths agree character by character. There is no normalisation. |
| `Watch.File.SameAttributes` | Watch.py:136-144 | True exactly when all ten fields of the stored stat value equal the current ones. One differing field is enough to count as a change. |
| `Watch.FileList.constructor` | Watch.py:36-49 | A new list is valid and tracks nothing. |
| `Watch.FileList.Length` | Watch.py:51-57 | Returns the number of tracked entries. |
| `Watch.FileList.Add` | Watch.py:59-65 | Appends exactly one entry: a fresh File with the path and its current stat value. Earlier entries are unchanged. |
| `Watch.FileList.AddList` | Watch.py:67-79 | Appends one entry per input path, in input order, each with that path's stat value. Emits one event per path: "found" if `first`, "added" otherwise. |
| `Watch.FileList.Find` | Watch.py:94-99 | Reports whether some entry has the path. If so, returns the index of the last such entry. |
| `Watch.FileList.Visit` | Watch.py:93-106 | Processing one incoming path changes the entries and emits events exactly as `Snapshot.Step` does. Every File already in the list stays the same object at the same position, so a modified path's stored value is updated in place. Only an untracked path adds a File, a fresh one at the end. |
| `Watch.FileList.VisitAll` | Watch.py:93-106 | Running the first pass over all incoming paths, in order, gives exactly the entries and events of `Snapshot.Pass1`. Every File tracked before the pass stays the same object at the same position. |
| `Watch.KeepIncoming` | Watch.py:107-109 | The scan of the second pass keeps, in order, exactly the Files whose path is incoming. It emits "removed" for every other File, in list order, as `Snapshot.Prune` does. |
| `Watch.FileList.DropAbsent` | Watch.py:107-110 | The new list and events are exactly `Snapshot.Prune` of the old entries. No File outside the old list appears. |
| `Watch.FileList.Compare` | Watch.py:81-110 | The new entries and the events are exactly `Snapshot.Compare` of the old entries. The list stays free of aliased Files. |
| `Snapshot.Appended` | Watch.py:67-79 | The old entries stay as a prefix, followed by one entry per path, in path order, each holding that path's stat value. |
| `Snapshot.Announced` | Watch.py:74-79 | One event per path, in path order: "found" on the first crawl, "added" otherwise. |
| `Snapshot.LastMatch` | Watch.py:96-99 | Returns the index of the last entry with the path, or None exactly when no entry has it. |
| `Snapshot.Step` | Watch.py:93-106 | Afterwards the path is tracked with its current stat value. Old entries keep their paths and positions. Entries for other paths are untouched, and lookups of other paths are unchanged. Emits no event if the stored value equals the current one, "modified" if it differs, and "added" if the path was untracked. |
| `Snapshot.StepOverwrites` | Watch.py:96-106 | For a tracked path, the list after the step is the old list with the last matching entry overwritten in place by the fresh stat value; its length is unchanged. For an untracked path, the list after the step is the old list with one entry appended. |
| `Snapshot.Pass1` | Watch.py:93-106 | The first pass as one `Step` per incoming path, in order. It has no contract of its own. `Reconcile.Pass1Syncs`, `Pass1Layout`, `Pass1PathSet`, `Pass1EventShape`, `Pass1Added` and `Pass1Modified` characterise it. |
| `Snapshot.Prune` | Watch.py:107-110 | The second pass as intended: keep the entries whose path is incoming, in order, and report every other one as "removed". It has no contract of its own. `Snapshot.PruneReport` and `Reconcile.PruneStable` characterise it. |
| `Snapshot.Compare` | Watch.py:81-110 | One `compare` cycle: `Pass1`, then `Prune` of its result, with both passes' events in order. It has no contract of its own. `Reconcile.CompareConverges`, `CompareEvents`, `CompareReportsOnce`, `CompareSyncs`, `CompareIdempotent` and `CompareSize` characterise it. |
| `Snapshot.PruneReport` | Watch.py:107-110 | Keeps exactly the entries whose path is in the incoming list. Reports exactly the absent tracked paths as "removed". With unique paths, it reports each path once and the result stays unique. |
| `Reconcile.StepEvents` | Watch.py:100-106 | Within pass 1, a path that repeats an earlier incoming path emits nothing. Otherwise it emits "modified" if its old stored value is stale, nothing if that value is current, and "added" if the path was untracked. |
| `Reconcile.StepUntracked` | Watch.py:104-106 | An untracked path is appended with its current stat value and reported as "added". |
| `Reconcile.Pass1Syncs` | Watch.py:93-106 | After pass 1, every incoming path is tracked with its current stat value. Lookups of other paths resolve as before. |
| `Reconcile.Pass1Layout` | Watch.py:93-106 | Pass 1 does not move or rename tracked entries. It leaves entries for non-incoming paths untouched and appends only incoming paths. Unique paths stay unique. |
| `Reconcile.Pass1PathSet` | Watch.py:93-106 | After pass 1, the tracked path set is the old set plus the incoming paths. |
| `Reconcile.Pass1EventShape` | Watch.py:93-106 | Pass 1 emits only "added" and "modified", only for incoming paths, and never two events for the same path. |
| `Reconcile.Pass1Added` | Watch.py:104-106 | Pass 1 reports "added" for exactly the incoming paths minus the tracked ones. |
| `Reconcile.Pass1Modified` | Watch.py:100-103 | Pass 1 reports "modified" for exactly the incoming paths whose stored stat value differs from the current one. |
| `Reconcile.CompareConverges` | Watch.py:81-110 | After `compare`, the tracked path set equals the set of incoming paths. |
| `Reconcile.CompareEvents` | Watch.py:81-110 | "added" = incoming − tracked. "removed" = tracked − incoming. "modified" = shared paths whose stat value changed. "found" is never emitted. |
| `Reconcile.CompareReportsOnce` | Watch.py:81-110 | With unique tracked paths, no path gets two events in one cycle, so no path is both added and removed. Tracked paths stay unique. |
| `Reconcile.Pass1Stable` | Watch.py:100-101 | If every entry is up to date and every incoming path is tracked, pass 1 changes nothing and emits nothing. |
| `Reconcile.PruneStable` | Watch.py:107-108 | If every tracked path is incoming, pass 2 changes nothing and emits nothing. |
| `Reconcile.CompareSyncs` | Watch.py:81-110 | After `compare` with unique paths, every tracked entry holds the current cycle's stat value. |
| `Reconcile.CompareIdempotent` | Watch.py:81-110 | With unique paths, a second `compare` with the same paths and unchanged stat values emits no event and leaves the list as it was. |
| `Reconcile.CompareSize` | Watch.py:81-110 | With unique tracked paths and no repeated incoming path, the length after `compare` equals the number of incoming paths. |
| `Reconcile.EmptyListCompare` | Watch.py:88-91 | On an empty list, if the walk repeats no path, the two passes give the same entries and events as `add_list(filelist, False)`. |
| `Reconcile.FirstCrawl` | Watch.py:67-79 | After the first crawl of a walk that repeats no path, tracked paths are unique, they are exactly the crawled ones, and each holds its current stat value. |
| `RemovalQuirk.RemoveWhileIterating` | Watch.py:107-110 | The loop as written only reports absent paths. It never drops an entry whose path is incoming. It keeps only entries it was given. |
| `RemovalQuirk.RemovalSkipsNext` | Watch.py:107-110 | With two tracked files and neither in the new walk, the loop as written removes and reports only the first. The intended pass removes and reports both. |

## Left out

- `folder_analyze` (Watch.py:173-196) walks the directory with `os.walk`, which is file-system I/O. The path list is an input here, so the hidden-file filter and the depth cut-off are not modelled.
- `os.stat` (Watch.py:64, 103, 143) becomes the `stat` parameter, one fixed function per crawl. For a modified file, the source calls it twice (143, then 103); the model uses one value. If a path vanishes between the walk and the stat call, the source raises an exception that nothing catches. The model's `stat` is total, so that failure is not modelled.
- `ask_folder_location`, `ask_log_file_location` (Watch.py:147-170) and most of `main_function` (Watch.py:199-238) are interactive input, argument parsing, log-file creation, logging setup and the endless `time.sleep` loop. Only the two clamping lines (Watch.py:230-231) are modelled.
- `log` (Watch.py:13-33) adds a `datetime` timestamp and writes through `logging.info`. The model keeps only the option → kind mapping and the text after the date.
- The `debug` and `log_file` fields of `FileList` (Watch.py:38-49) are stored and never read, so they are not modelled.
- The sharing of `FileList.list` between instances (Watch.py:37) is not modelled. The list is an instance field.
- `Watch.FileList.Compare`, `Watch.FileList.DropAbsent`, `Watch.KeepIncoming`, `Snapshot.Prune`, `Snapshot.PruneReport`, `Snapshot.Compare`, `Reconcile.CompareConverges`, `Reconcile.CompareEvents` (its "removed" clause), `Reconcile.CompareSyncs`, `Reconcile.CompareIdempotent`, `Reconcile.CompareSize`: these hold for pass 2 as intended, not for the iterate-while-removing loop of Watch.py:107-110. Run as written, that loop keeps `/a/2.txt` when `/a/1.txt` and `/a/2.txt` are tracked and the walk is empty. `RemovalQuirk.RemoveWhileIterating` models that loop.

## Findings

| source | as written | input that shows it | evidently intended | confidence | as-written member | corrected member |
|---|---|---|---|---|---|---|
| Watch.py:107-110 | `for f in self.list: ... self.list.remove(f)` removes from the list being iterated over, so the entry right after each removed one is never examined | tracked `/a/1.txt`, `/a/2.txt`; new walk `[]` (both files deleted): only `/a/1.txt` is reported and dropped, and `/a/2.txt` stays tracked | every tracked entry absent from the walk is reported "removed" and dropped | high; not executed | `RemovalQuirk.RemovalSkipsNext` | `Snapshot.PruneReport` |
