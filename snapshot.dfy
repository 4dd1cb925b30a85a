/**
 * The snapshot that FileList keeps, as a value: an ordered sequence of
 * (path, stat) entries, and the reconciliation `compare` performs against a
 * fresh list of paths. The functions here are the specification the methods of
 * Watch.FileList are proved against.
 */
module Snapshot {
  import opened Events

  datatype Option<T> = None | Some(value: T)

  /**
   * The tuple part of `os.stat_result` (the part Python compares with `==`):
   * mode, inode, device, link count, owner, group, size and the three
   * timestamps in whole seconds.
   */
  datatype StatResult = StatResult(
    mode: int, ino: int, dev: int, nlink: int, uid: int, gid: int,
    size: int, atime: int, mtime: int, ctime: int)

  /** What one `File` record holds: a path and the stat value last seen for it. */
  datatype Entry = Entry(path: Path, attributes: StatResult)

  /** The tracked entries and the events one operation emitted. */
  datatype Outcome = Outcome(entries: seq<Entry>, events: seq<Event>)

  ghost function PathSet(entries: seq<Entry>): set<Path>
  {
    set e | e in entries :: e.path
  }

  ghost function Elems(paths: seq<Path>): set<Path>
  {
    set p | p in paths
  }

  /** No two entries share a path. */
  ghost predicate Unique(entries: seq<Entry>)
  {
    forall i, j :: 0 <= i < j < |entries| ==> entries[i].path != entries[j].path
  }

  /** No two events are about the same path. */
  ghost predicate DistinctPaths(events: seq<Event>)
  {
    forall i, j :: 0 <= i < j < |events| ==> events[i].path != events[j].path
  }

  /** The paths reported with the given kind. */
  ghost function PathsOfKind(events: seq<Event>, kind: EventKind): set<Path>
  {
    set e | e in events && e.kind == kind :: e.path
  }

  /**
   * The inner loop of `compare`: the index of the LAST entry whose path is `p`,
   * or None when no entry has that path.
   */
  function LastMatch(entries: seq<Entry>, p: Path): (r: Option<nat>)
    ensures r.Some? ==> r.value < |entries| && entries[r.value].path == p
    ensures r.Some? ==> forall j :: r.value < j < |entries| ==> entries[j].path != p
    ensures r.None? <==> p !in PathSet(entries)
  {
    if entries == [] then None
    else if entries[|entries| - 1].path == p then Some(|entries| - 1)
    else
      var r := LastMatch(entries[..|entries| - 1], p);
      assert entries == entries[..|entries| - 1] + [entries[|entries| - 1]];
      r
  }

  /** `p` is tracked and its last match holds the fresh stat value. */
  ghost predicate Synced(entries: seq<Entry>, p: Path, stat: Path -> StatResult)
  {
    LastMatch(entries, p).Some? && entries[LastMatch(entries, p).value].attributes == stat(p)
  }

  /** `p` is tracked and its last match holds a stat value that differs from the fresh one. */
  ghost predicate Stale(entries: seq<Entry>, p: Path, stat: Path -> StatResult)
  {
    LastMatch(entries, p).Some? && entries[LastMatch(entries, p).value].attributes != stat(p)
  }

  /** `add_list`: one entry per path, in input order, with that path's stat value. */
  function Appended(entries: seq<Entry>, paths: seq<Path>, stat: Path -> StatResult): (r: seq<Entry>)
    ensures |r| == |entries| + |paths| && r[..|entries|] == entries
    ensures forall i :: 0 <= i < |paths| ==> r[|entries| + i] == Entry(paths[i], stat(paths[i]))
  {
    entries + seq(|paths|, i requires 0 <= i < |paths| => Entry(paths[i], stat(paths[i])))
  }

  /** The events `add_list` emits: one per path, "found" on the first crawl, "added" otherwise. */
  function Announced(paths: seq<Path>, first: bool): (r: seq<Event>)
    ensures |r| == |paths|
    ensures forall i :: 0 <= i < |paths| ==> r[i] == Event(paths[i], if first then Found else Added)
  {
    seq(|paths|, i requires 0 <= i < |paths| => Event(paths[i], if first then Found else Added))
  }

  lemma AppendedSnoc(entries: seq<Entry>, init: seq<Path>, p: Path, stat: Path -> StatResult)
    ensures Appended(entries, init + [p], stat) == Appended(entries, init, stat) + [Entry(p, stat(p))]
  {
    var a, b := Appended(entries, init + [p], stat), Appended(entries, init, stat) + [Entry(p, stat(p))];
    assert |a| == |b|;
    forall i | 0 <= i < |a| ensures a[i] == b[i] {
      if |entries| <= i < |entries| + |init| {
        assert a[|entries| + (i - |entries|)] == Entry((init + [p])[i - |entries|], stat((init + [p])[i - |entries|]));
      }
    }
  }

  lemma AnnouncedSnoc(init: seq<Path>, p: Path, first: bool)
    ensures Announced(init + [p], first) == Announced(init, first) + [Event(p, if first then Found else Added)]
  {
    var a, b := Announced(init + [p], first), Announced(init, first) + [Event(p, if first then Found else Added)];
    assert |a| == |b|;
    forall i | 0 <= i < |a| ensures a[i] == b[i] {
      if i < |init| {
        assert a[i] == Event((init + [p])[i], if first then Found else Added);
      }
    }
  }

  /**
   * One iteration of the first pass of `compare`, for incoming path `p`: a
   * tracked path whose stat differs gets the fresh value and a "modified"
   * event; an untracked path is appended and reported "added"; a tracked path
   * whose stat is equal is left alone.
   */
  function Step(entries: seq<Entry>, p: Path, stat: Path -> StatResult): (o: Outcome)
    ensures Synced(o.entries, p, stat)
    ensures |o.entries| >= |entries|
    ensures forall j :: 0 <= j < |entries| ==> o.entries[j].path == entries[j].path
    ensures forall j :: 0 <= j < |entries| && entries[j].path != p ==> o.entries[j] == entries[j]
    ensures forall j :: |entries| <= j < |o.entries| ==> o.entries[j].path == p
    ensures forall q :: q != p ==> LastMatch(o.entries, q) == LastMatch(entries, q)
    ensures o.events == if Synced(entries, p, stat) then []
                        else if Stale(entries, p, stat) then [Event(p, Modified)]
                        else [Event(p, Added)]
  {
    match LastMatch(entries, p)
    case Some(i) =>
      if entries[i].attributes != stat(p) then
        var updated := entries[i := Entry(p, stat(p))];
        LastMatchSamePaths(entries, updated, p);
        forall q | q != p ensures LastMatch(updated, q) == LastMatch(entries, q) {
          LastMatchSamePaths(entries, updated, q);
        }
        Outcome(updated, [Event(p, Modified)])
      else
        Outcome(entries, [])
    case None =>
      var grown := entries + [Entry(p, stat(p))];
      assert grown[..|entries|] == entries;
      Outcome(grown, [Event(p, Added)])
  }

  /**
   * A tracked path is overwritten in place: the last entry with that path gets
   * the fresh stat value and the list keeps its length; only an untracked
   * path makes the list grow.
   */
  lemma StepOverwrites(entries: seq<Entry>, p: Path, stat: Path -> StatResult)
    ensures LastMatch(entries, p).Some? ==>
              Step(entries, p, stat).entries == entries[LastMatch(entries, p).value := Entry(p, stat(p))]
    ensures LastMatch(entries, p).None? ==> Step(entries, p, stat).entries == entries + [Entry(p, stat(p))]
  {
    match LastMatch(entries, p)
    case Some(i) =>
      if entries[i].attributes == stat(p) {
        assert entries[i := Entry(p, stat(p))] == entries;
      }
    case None =>
  }

  /** LastMatch looks only at paths. */
  lemma LastMatchSamePaths(a: seq<Entry>, b: seq<Entry>, p: Path)
    requires |a| == |b|
    requires forall j :: 0 <= j < |a| ==> a[j].path == b[j].path
    ensures LastMatch(a, p) == LastMatch(b, p)
  {
    var ra, rb := LastMatch(a, p), LastMatch(b, p);
    if ra.Some? && rb.Some? {
      assert !(ra.value < rb.value) && !(rb.value < ra.value);
    }
  }

  /** Pass 1 of `compare` (Watch.py:93-106) over the incoming paths, in order. */
  function Pass1(entries: seq<Entry>, paths: seq<Path>, stat: Path -> StatResult): Outcome
    decreases |paths|
  {
    if paths == [] then Outcome(entries, [])
    else
      var prev := Pass1(entries, paths[..|paths| - 1], stat);
      var step := Step(prev.entries, paths[|paths| - 1], stat);
      Outcome(step.entries, prev.events + step.events)
  }

  /** Pass 1 over one more path is one more `Step` on the list pass 1 left. */
  lemma Pass1Snoc(entries: seq<Entry>, init: seq<Path>, p: Path, stat: Path -> StatResult)
    ensures Pass1(entries, init + [p], stat).entries == Step(Pass1(entries, init, stat).entries, p, stat).entries
    ensures Pass1(entries, init + [p], stat).events
         == Pass1(entries, init, stat).events + Step(Pass1(entries, init, stat).entries, p, stat).events
  {
    assert (init + [p])[..|init|] == init;
  }

  /**
   * Pass 2 of `compare`, as intended (Watch.py:107-110): keep the entries
   * whose path is in the incoming list, in their order, and report every
   * other one as "removed". The source removes from the list while iterating
   * over it, which skips the entry after each removal; RemovalQuirk models
   * that behaviour.
   */
  function Prune(entries: seq<Entry>, paths: seq<Path>): Outcome
  {
    if entries == [] then Outcome([], [])
    else
      var init := entries[..|entries| - 1];
      var e := entries[|entries| - 1];
      assert entries == init + [e];
      var prev := Prune(init, paths);
      if e.path in paths then Outcome(prev.entries + [e], prev.events)
      else Outcome(prev.entries, prev.events + [Event(e.path, Removed)])
  }

  /** Pass 2 processes the tracked entries front to back. */
  lemma PruneSnoc(entries: seq<Entry>, e: Entry, paths: seq<Path>)
    ensures Prune(entries + [e], paths)
         == var prev := Prune(entries, paths);
            if e.path in paths then Outcome(prev.entries + [e], prev.events)
            else Outcome(prev.entries, prev.events + [Event(e.path, Removed)])
  {
    assert (entries + [e])[..|entries|] == entries;
  }

  /**
   * Pass 2 keeps exactly the entries whose path is incoming and reports
   * exactly the tracked paths that are absent, and, when tracked paths are
   * unique, each one once.
   */
  lemma PruneReport(entries: seq<Entry>, paths: seq<Path>)
    ensures |Prune(entries, paths).entries| + |Prune(entries, paths).events| == |entries|
    ensures forall e :: e in Prune(entries, paths).entries <==> e in entries && e.path in paths
    ensures forall ev :: ev in Prune(entries, paths).events ==> ev.kind == Removed && ev.path !in paths
    ensures PathsOfKind(Prune(entries, paths).events, Removed) == PathSet(entries) - Elems(paths)
    ensures Unique(entries) ==> Unique(Prune(entries, paths).entries) && DistinctPaths(Prune(entries, paths).events)
  {
    PruneShape(entries, paths);
    PruneRemovals(entries, paths);
    if Unique(entries) {
      PruneUnique(entries, paths);
    }
  }

  /** Which entries pass 2 keeps, and that it reports only absent paths. */
  lemma {:induction false} PruneShape(entries: seq<Entry>, paths: seq<Path>)
    ensures |Prune(entries, paths).entries| + |Prune(entries, paths).events| == |entries|
    ensures forall e :: e in Prune(entries, paths).entries <==> e in entries && e.path in paths
    ensures forall ev :: ev in Prune(entries, paths).events ==> ev.kind == Removed && ev.path in PathSet(entries) && ev.path !in paths
  {
    if entries != [] {
      var init := entries[..|entries| - 1];
      var e := entries[|entries| - 1];
      assert entries == init + [e];
      PruneShape(init, paths);
      assert PathSet(entries) == PathSet(init) + {e.path};
    }
  }

  /** Pass 2 reports exactly the absent tracked paths. */
  lemma {:induction false} PruneRemovals(entries: seq<Entry>, paths: seq<Path>)
    ensures PathsOfKind(Prune(entries, paths).events, Removed) == PathSet(entries) - Elems(paths)
  {
    if entries != [] {
      var init := entries[..|entries| - 1];
      var e := entries[|entries| - 1];
      assert entries == init + [e];
      var prev := Prune(init, paths);
      var o := Prune(entries, paths);
      PruneRemovals(init, paths);
      assert PathSet(entries) == PathSet(init) + {e.path};
      if e.path in paths {
        assert o.events == prev.events;
      } else {
        assert o.events == prev.events + [Event(e.path, Removed)];
        assert PathsOfKind(o.events, Removed) == PathsOfKind(prev.events, Removed) + {e.path};
      }
    }
  }

  /** With unique tracked paths, pass 2 keeps them unique and reports each once. */
  lemma {:induction false} PruneUnique(entries: seq<Entry>, paths: seq<Path>)
    requires Unique(entries)
    ensures Unique(Prune(entries, paths).entries) && DistinctPaths(Prune(entries, paths).events)
  {
    if entries != [] {
      var init := entries[..|entries| - 1];
      var e := entries[|entries| - 1];
      assert entries == init + [e];
      var prev := Prune(init, paths);
      PruneUnique(init, paths);
      PruneShape(init, paths);
      if e.path in paths {
        forall j | 0 <= j < |prev.entries| ensures prev.entries[j].path != e.path {
          assert prev.entries[j] in init;
        }
      } else {
        forall j | 0 <= j < |prev.events| ensures prev.events[j].path != e.path {
          assert prev.events[j] in prev.events;
        }
      }
    }
  }

  /** `compare`: pass 1 over the incoming paths, then pass 2 over the tracked entries. */
  function Compare(entries: seq<Entry>, paths: seq<Path>, stat: Path -> StatResult): Outcome
  {
    var first := Pass1(entries, paths, stat);
    var second := Prune(first.entries, paths);
    Outcome(second.entries, first.events + second.events)
  }
}
