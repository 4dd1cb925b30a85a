/**
 * What one `compare` cycle guarantees, proved about Snapshot.Compare: the
 * tracked paths converge to the incoming list, "added", "removed" and
 * "modified" are exactly the set differences and the changed shared paths,
 * each path is reported at most once, and a repeated cycle changes nothing.
 */
module Reconcile {
  import opened Events
  import opened Snapshot

  /** No path occurs twice in the incoming list (as a directory walk produces it). */
  ghost predicate Distinct(paths: seq<Path>)
  {
    forall i, j :: 0 <= i < j < |paths| ==> paths[i] != paths[j]
  }

  /** Every entry holds the stat value its path has in this cycle. */
  ghost predicate InSync(entries: seq<Entry>, stat: Path -> StatResult)
  {
    forall j :: 0 <= j < |entries| ==> entries[j].attributes == stat(entries[j].path)
  }

  /**
   * Pass 1 leaves every incoming path tracked with its fresh stat value and
   * does not change which entry any other path resolves to.
   */
  lemma {:induction false} Pass1Syncs(entries: seq<Entry>, paths: seq<Path>, stat: Path -> StatResult)
    ensures forall q :: q in paths ==> Synced(Pass1(entries, paths, stat).entries, q, stat)
    ensures forall q :: q !in paths ==> LastMatch(Pass1(entries, paths, stat).entries, q) == LastMatch(entries, q)
    decreases |paths|
  {
    if paths != [] {
      var init, p := paths[..|paths| - 1], paths[|paths| - 1];
      assert paths == init + [p];
      Pass1Syncs(entries, init, stat);
      var prev := Pass1(entries, init, stat);
      var o := Step(prev.entries, p, stat);
      forall q | q in paths ensures Synced(o.entries, q, stat) {
        if q != p {
          var i := LastMatch(prev.entries, q).value;
          assert o.entries[i] == prev.entries[i];
        }
      }
    }
  }

  /**
   * Pass 1 does not move or rename an entry that was already tracked,
   * touches no entry whose path is not incoming, appends only incoming
   * paths, and keeps tracked paths unique.
   */
  lemma {:induction false} Pass1Layout(entries: seq<Entry>, paths: seq<Path>, stat: Path -> StatResult)
    ensures |Pass1(entries, paths, stat).entries| >= |entries|
    ensures forall j :: 0 <= j < |entries| ==> Pass1(entries, paths, stat).entries[j].path == entries[j].path
    ensures forall j :: 0 <= j < |entries| && entries[j].path !in paths ==> Pass1(entries, paths, stat).entries[j] == entries[j]
    ensures forall j :: |entries| <= j < |Pass1(entries, paths, stat).entries| ==> Pass1(entries, paths, stat).entries[j].path in paths
    ensures Unique(entries) ==> Unique(Pass1(entries, paths, stat).entries)
    decreases |paths|
  {
    if paths != [] {
      var init, p := paths[..|paths| - 1], paths[|paths| - 1];
      assert paths == init + [p];
      Pass1Layout(entries, init, stat);
      if Unique(entries) {
        StepUnique(Pass1(entries, init, stat).entries, p, stat);
      }
    }
  }

  /** One step of pass 1 keeps tracked paths unique. */
  lemma StepUnique(entries: seq<Entry>, p: Path, stat: Path -> StatResult)
    requires Unique(entries)
    ensures Unique(Step(entries, p, stat).entries)
  {
    var o := Step(entries, p, stat);
    if |o.entries| > |entries| {
      assert LastMatch(entries, p).None?;
      forall j | 0 <= j < |entries| ensures entries[j].path != p {
        assert entries[j] in entries;
      }
    }
  }

  /** After pass 1 the tracked paths are the old ones plus the incoming ones. */
  lemma Pass1PathSet(entries: seq<Entry>, paths: seq<Path>, stat: Path -> StatResult)
    ensures PathSet(Pass1(entries, paths, stat).entries) == PathSet(entries) + Elems(paths)
  {
    var o := Pass1(entries, paths, stat).entries;
    Pass1Syncs(entries, paths, stat);
    Pass1Layout(entries, paths, stat);
    forall q | q in PathSet(entries) ensures q in PathSet(o) {
      var j :| 0 <= j < |entries| && entries[j].path == q;
      assert o[j] in o;
    }
    forall q | q in Elems(paths) ensures q in PathSet(o) {
      assert Synced(o, q, stat);
    }
    forall q | q in PathSet(o) ensures q in PathSet(entries) + Elems(paths) {
      var j :| 0 <= j < |o| && o[j].path == q;
      if j < |entries| {
        assert entries[j] in entries;
      }
    }
  }

  lemma PathsOfKindConcat(a: seq<Event>, b: seq<Event>, kind: EventKind)
    ensures PathsOfKind(a + b, kind) == PathsOfKind(a, kind) + PathsOfKind(b, kind)
  {
    assert forall e :: e in a + b <==> e in a || e in b;
  }

  /**
   * The events the step for the last incoming path adds to pass 1: none for a
   * repeated path, otherwise "modified" when its tracked stat value is stale,
   * "added" when it is not tracked, and none when it is tracked and in sync.
   */
  lemma StepEvents(entries: seq<Entry>, init: seq<Path>, p: Path, stat: Path -> StatResult)
    ensures Step(Pass1(entries, init, stat).entries, p, stat).events
         == if p in init then []
            else if Stale(entries, p, stat) then [Event(p, Modified)]
            else if p in PathSet(entries) then []
            else [Event(p, Added)]
  {
    Pass1Syncs(entries, init, stat);
    Pass1Layout(entries, init, stat);
    var prev := Pass1(entries, init, stat).entries;
    if p !in init {
      assert LastMatch(prev, p) == LastMatch(entries, p);
      if LastMatch(entries, p).Some? {
        var i := LastMatch(entries, p).value;
        assert prev[i] == entries[i];
      }
    }
  }

  /** Pass 1 over one more path emits at most one more event, as `StepEvents` says. */
  lemma EventsSnoc(entries: seq<Entry>, init: seq<Path>, p: Path, stat: Path -> StatResult)
    ensures Pass1(entries, init + [p], stat).events
         == Pass1(entries, init, stat).events
            + (if p in init then []
               else if Stale(entries, p, stat) then [Event(p, Modified)]
               else if p in PathSet(entries) then []
               else [Event(p, Added)])
  {
    Pass1Snoc(entries, init, p, stat);
    StepEvents(entries, init, p, stat);
  }

  /** Pass 1 emits only "added" and "modified" events, about incoming paths, no path twice. */
  lemma Pass1EventShape(entries: seq<Entry>, paths: seq<Path>, stat: Path -> StatResult)
    ensures forall ev :: ev in Pass1(entries, paths, stat).events ==> ev.path in paths && (ev.kind == Added || ev.kind == Modified)
    ensures DistinctPaths(Pass1(entries, paths, stat).events)
  {
    Pass1EventKinds(entries, paths, stat);
    Pass1EventsDistinct(entries, paths, stat);
  }

  /** Pass 1 emits only "added" and "modified", about incoming paths. */
  lemma {:induction false} Pass1EventKinds(entries: seq<Entry>, paths: seq<Path>, stat: Path -> StatResult)
    ensures forall ev :: ev in Pass1(entries, paths, stat).events ==> ev.path in paths && (ev.kind == Added || ev.kind == Modified)
    decreases |paths|
  {
    if paths != [] {
      var init, p := paths[..|paths| - 1], paths[|paths| - 1];
      assert paths == init + [p];
      Pass1EventKinds(entries, init, stat);
      EventsSnoc(entries, init, p, stat);
    }
  }

  /** Pass 1 never emits two events about one path. */
  lemma {:induction false} Pass1EventsDistinct(entries: seq<Entry>, paths: seq<Path>, stat: Path -> StatResult)
    ensures DistinctPaths(Pass1(entries, paths, stat).events)
    decreases |paths|
  {
    if paths != [] {
      var init, p := paths[..|paths| - 1], paths[|paths| - 1];
      assert paths == init + [p];
      Pass1EventsDistinct(entries, init, stat);
      Pass1EventKinds(entries, init, stat);
      EventsSnoc(entries, init, p, stat);
      var prev := Pass1(entries, init, stat);
      if p !in init {
        forall j | 0 <= j < |prev.events| ensures prev.events[j].path != p {
          assert prev.events[j] in prev.events;
        }
      }
    }
  }

  /** The step for the last incoming path, by kind. */
  lemma StepKinds(entries: seq<Entry>, init: seq<Path>, p: Path, stat: Path -> StatResult)
    ensures PathsOfKind(Step(Pass1(entries, init, stat).entries, p, stat).events, Added)
         == if p in init || p in PathSet(entries) then {} else {p}
    ensures PathsOfKind(Step(Pass1(entries, init, stat).entries, p, stat).events, Modified)
         == if p !in init && Stale(entries, p, stat) then {p} else {}
  {
    StepEvents(entries, init, p, stat);
    var ev := Step(Pass1(entries, init, stat).entries, p, stat).events;
    assert Stale(entries, p, stat) ==> p in PathSet(entries);
    if ev != [] {
      assert ev[0] in ev;
    }
  }

  /** Pass 1 reports "added" for exactly the incoming paths that were not tracked. */
  lemma {:induction false} Pass1Added(entries: seq<Entry>, paths: seq<Path>, stat: Path -> StatResult)
    ensures PathsOfKind(Pass1(entries, paths, stat).events, Added) == Elems(paths) - PathSet(entries)
    decreases |paths|
  {
    if paths != [] {
      var init, p := paths[..|paths| - 1], paths[|paths| - 1];
      assert paths == init + [p];
      Pass1Added(entries, init, stat);
      AddedSnoc(entries, init, p, stat);
      assert Elems(paths) == Elems(init) + {p};
    }
  }

  /** One more incoming path adds it to the "added" set exactly when it is new. */
  lemma AddedSnoc(entries: seq<Entry>, init: seq<Path>, p: Path, stat: Path -> StatResult)
    ensures PathsOfKind(Pass1(entries, init + [p], stat).events, Added)
         == PathsOfKind(Pass1(entries, init, stat).events, Added)
            + (if p in init || p in PathSet(entries) then {} else {p})
  {
    var prev := Pass1(entries, init, stat);
    Pass1Snoc(entries, init, p, stat);
    StepKinds(entries, init, p, stat);
    PathsOfKindConcat(prev.events, Step(prev.entries, p, stat).events, Added);
  }

  /** Pass 1 reports "modified" for exactly the incoming paths whose tracked stat value is stale. */
  lemma {:induction false} Pass1Modified(entries: seq<Entry>, paths: seq<Path>, stat: Path -> StatResult)
    ensures PathsOfKind(Pass1(entries, paths, stat).events, Modified) == set p | p in paths && Stale(entries, p, stat)
    decreases |paths|
  {
    if paths != [] {
      var init, p := paths[..|paths| - 1], paths[|paths| - 1];
      assert paths == init + [p];
      Pass1Modified(entries, init, stat);
      ModifiedSnoc(entries, init, p, stat);
      StaleSetSnoc(entries, init, p, stat);
    }
  }

  /** One more incoming path adds it to the "modified" set exactly when it is new to pass 1 and stale. */
  lemma ModifiedSnoc(entries: seq<Entry>, init: seq<Path>, p: Path, stat: Path -> StatResult)
    ensures PathsOfKind(Pass1(entries, init + [p], stat).events, Modified)
         == PathsOfKind(Pass1(entries, init, stat).events, Modified)
            + (if p !in init && Stale(entries, p, stat) then {p} else {})
  {
    var prev := Pass1(entries, init, stat);
    Pass1Snoc(entries, init, p, stat);
    StepKinds(entries, init, p, stat);
    PathsOfKindConcat(prev.events, Step(prev.entries, p, stat).events, Modified);
  }

  lemma StaleSetSnoc(entries: seq<Entry>, init: seq<Path>, p: Path, stat: Path -> StatResult)
    ensures (set q | q in init + [p] && Stale(entries, q, stat))
         == (set q | q in init && Stale(entries, q, stat)) + (if Stale(entries, p, stat) then {p} else {})
  {
    forall q | q in init + [p] && Stale(entries, q, stat) ensures q in init || q == p { }
  }

  /** Convergence: after `compare(paths)` the tracked paths are exactly the incoming ones. */
  lemma CompareConverges(entries: seq<Entry>, paths: seq<Path>, stat: Path -> StatResult)
    ensures PathSet(Compare(entries, paths, stat).entries) == Elems(paths)
  {
    var first := Pass1(entries, paths, stat);
    var second := Prune(first.entries, paths);
    Pass1Syncs(entries, paths, stat);
    Pass1Layout(entries, paths, stat);
    PruneReport(first.entries, paths);
    forall q | q in Elems(paths) ensures q in PathSet(second.entries) {
      var i := LastMatch(first.entries, q).value;
      assert first.entries[i] in first.entries;
      assert first.entries[i] in second.entries;
    }
  }

  /**
   * The events of one cycle partition the changes: "added" is the incoming
   * set minus the tracked set, "removed" the tracked set minus the incoming
   * set, "modified" the shared paths whose stat value changed, and "found" is
   * never emitted by `compare`.
   */
  lemma CompareEvents(entries: seq<Entry>, paths: seq<Path>, stat: Path -> StatResult)
    ensures PathsOfKind(Compare(entries, paths, stat).events, Added) == Elems(paths) - PathSet(entries)
    ensures PathsOfKind(Compare(entries, paths, stat).events, Removed) == PathSet(entries) - Elems(paths)
    ensures PathsOfKind(Compare(entries, paths, stat).events, Modified) == set p | p in paths && Stale(entries, p, stat)
    ensures PathsOfKind(Compare(entries, paths, stat).events, Found) == {}
  {
    var first := Pass1(entries, paths, stat);
    var second := Prune(first.entries, paths);
    Pass1EventShape(entries, paths, stat);
    Pass1Added(entries, paths, stat);
    Pass1Modified(entries, paths, stat);
    Pass1PathSet(entries, paths, stat);
    PruneReport(first.entries, paths);
    forall kind ensures PathsOfKind(Compare(entries, paths, stat).events, kind)
                        == PathsOfKind(first.events, kind) + PathsOfKind(second.events, kind) {
      PathsOfKindConcat(first.events, second.events, kind);
    }
    assert PathsOfKind(first.events, Removed) == {};
    assert PathsOfKind(first.events, Found) == {};
    assert PathsOfKind(second.events, Added) == {};
    assert PathsOfKind(second.events, Modified) == {};
    assert PathsOfKind(second.events, Found) == {};
  }

  /**
   * With unique tracked paths, no path is reported twice in one cycle; in
   * particular no path is both added and removed.
   */
  lemma CompareReportsOnce(entries: seq<Entry>, paths: seq<Path>, stat: Path -> StatResult)
    requires Unique(entries)
    ensures DistinctPaths(Compare(entries, paths, stat).events)
    ensures Unique(Compare(entries, paths, stat).entries)
  {
    var first := Pass1(entries, paths, stat);
    var second := Prune(first.entries, paths);
    Pass1EventShape(entries, paths, stat);
    Pass1Syncs(entries, paths, stat);
    Pass1Layout(entries, paths, stat);
    PruneReport(first.entries, paths);
    var events := first.events + second.events;
    forall i, j | 0 <= i < j < |events| ensures events[i].path != events[j].path {
      if j >= |first.events| && i < |first.events| {
        assert first.events[i] in first.events;
        assert events[j] in second.events;
      }
    }
  }

  /** An in-sync list holding only incoming paths passes pass 1 unchanged and silently. */
  lemma {:induction false} Pass1Stable(entries: seq<Entry>, paths: seq<Path>, stat: Path -> StatResult)
    requires InSync(entries, stat)
    requires Elems(paths) <= PathSet(entries)
    ensures Pass1(entries, paths, stat) == Outcome(entries, [])
    decreases |paths|
  {
    if paths != [] {
      var init, p := paths[..|paths| - 1], paths[|paths| - 1];
      assert Elems(init) <= Elems(paths);
      Pass1Stable(entries, init, stat);
      assert p in Elems(paths);
      assert Synced(entries, p, stat);
    }
  }

  /** Pass 2 keeps a list whose paths are all incoming unchanged and silently. */
  lemma {:induction false} PruneStable(entries: seq<Entry>, paths: seq<Path>)
    requires forall j :: 0 <= j < |entries| ==> entries[j].path in paths
    ensures Prune(entries, paths) == Outcome(entries, [])
  {
    if entries != [] {
      var init := entries[..|entries| - 1];
      PruneStable(init, paths);
      assert entries == init + [entries[|entries| - 1]];
    }
  }

  /** After a cycle, every tracked entry holds this cycle's stat value. */
  lemma CompareSyncs(entries: seq<Entry>, paths: seq<Path>, stat: Path -> StatResult)
    requires Unique(entries)
    ensures InSync(Compare(entries, paths, stat).entries, stat)
  {
    var first := Pass1(entries, paths, stat);
    var kept := Compare(entries, paths, stat).entries;
    Pass1Syncs(entries, paths, stat);
    Pass1Layout(entries, paths, stat);
    PruneReport(first.entries, paths);
    forall j | 0 <= j < |kept| ensures kept[j].attributes == stat(kept[j].path) {
      assert kept[j] in kept;
      var k :| 0 <= k < |first.entries| && first.entries[k] == kept[j];
      var i := LastMatch(first.entries, kept[j].path).value;
      assert i == k;
    }
  }

  /**
   * Idempotence: running `compare` again with the same paths and unchanged
   * stat values emits no event and leaves the list as it is.
   */
  lemma CompareIdempotent(entries: seq<Entry>, paths: seq<Path>, stat: Path -> StatResult)
    requires Unique(entries)
    ensures var kept := Compare(entries, paths, stat).entries;
            Compare(kept, paths, stat) == Outcome(kept, [])
  {
    var kept := Compare(entries, paths, stat).entries;
    CompareConverges(entries, paths, stat);
    CompareSyncs(entries, paths, stat);
    Pass1Stable(kept, paths, stat);
    PruneReport(Pass1(entries, paths, stat).entries, paths);
    forall j | 0 <= j < |kept| ensures kept[j].path in paths {
      assert kept[j] in kept;
    }
    PruneStable(kept, paths);
  }

  lemma {:induction false} UniqueCard(entries: seq<Entry>)
    requires Unique(entries)
    ensures |PathSet(entries)| == |entries|
  {
    if entries != [] {
      var init, e := entries[..|entries| - 1], entries[|entries| - 1];
      assert entries == init + [e];
      UniqueCard(init);
      assert PathSet(entries) == PathSet(init) + {e.path};
      forall j | 0 <= j < |init| ensures init[j].path != e.path { }
    }
  }

  lemma {:induction false} DistinctCard(paths: seq<Path>)
    requires Distinct(paths)
    ensures |Elems(paths)| == |paths|
  {
    if paths != [] {
      var init, p := paths[..|paths| - 1], paths[|paths| - 1];
      assert paths == init + [p];
      DistinctCard(init);
      assert Elems(paths) == Elems(init) + {p};
    }
  }

  /** With unique tracked paths and a repetition-free incoming list, the size after a cycle is the list's length. */
  lemma CompareSize(entries: seq<Entry>, paths: seq<Path>, stat: Path -> StatResult)
    requires Unique(entries)
    requires Distinct(paths)
    ensures |Compare(entries, paths, stat).entries| == |paths|
  {
    var kept := Compare(entries, paths, stat).entries;
    CompareReportsOnce(entries, paths, stat);
    CompareConverges(entries, paths, stat);
    UniqueCard(kept);
    DistinctCard(paths);
  }

  /**
   * On an empty list, the two-pass `compare` does what the unreachable
   * `add_list(filelist, False)` branch of Watch.py:89-91 would have done,
   * provided the incoming list has no repeated path.
   */
  lemma EmptyListCompare(paths: seq<Path>, stat: Path -> StatResult)
    requires Distinct(paths)
    ensures Compare([], paths, stat) == Outcome(Appended([], paths, stat), Announced(paths, false))
  {
    EmptyListPass1(paths, stat);
    AppendedIncoming(paths, stat);
    CompareAfterQuietPrune([], paths, stat);
  }

  /** The entries of a first crawl all carry incoming paths. */
  lemma AppendedIncoming(paths: seq<Path>, stat: Path -> StatResult)
    ensures forall j :: 0 <= j < |Appended([], paths, stat)| ==> Appended([], paths, stat)[j].path in paths
  {
    var added := Appended([], paths, stat);
    forall j | 0 <= j < |added| ensures added[j].path in paths {
      assert added[j].path == paths[j];
    }
  }

  /** When pass 1 leaves only incoming paths, the cycle is pass 1 alone. */
  lemma CompareAfterQuietPrune(entries: seq<Entry>, paths: seq<Path>, stat: Path -> StatResult)
    requires forall j :: 0 <= j < |Pass1(entries, paths, stat).entries| ==> Pass1(entries, paths, stat).entries[j].path in paths
    ensures Compare(entries, paths, stat) == Pass1(entries, paths, stat)
  {
    var first := Pass1(entries, paths, stat);
    PruneStable(first.entries, paths);
    assert first.events + [] == first.events;
  }

  lemma {:induction false} EmptyListPass1(paths: seq<Path>, stat: Path -> StatResult)
    requires Distinct(paths)
    ensures Pass1([], paths, stat) == Outcome(Appended([], paths, stat), Announced(paths, false))
    decreases |paths|
  {
    if paths != [] {
      var init, p := paths[..|paths| - 1], paths[|paths| - 1];
      assert paths == init + [p];
      DistinctSnoc(paths);
      EmptyListPass1(init, stat);
      var prev := Pass1([], init, stat);
      NotYetAppended(init, p, stat);
      StepUntracked(prev.entries, p, stat);
      AppendedSnoc([], init, p, stat);
      AnnouncedSnoc(init, p, false);
    }
  }

  lemma DistinctSnoc(paths: seq<Path>)
    requires paths != [] && Distinct(paths)
    ensures Distinct(paths[..|paths| - 1]) && paths[|paths| - 1] !in paths[..|paths| - 1]
  {
  }

  lemma NotYetAppended(init: seq<Path>, p: Path, stat: Path -> StatResult)
    requires p !in init
    ensures p !in PathSet(Appended([], init, stat))
  {
    var prev := Appended([], init, stat);
    forall j | 0 <= j < |prev| ensures prev[j].path != p {
      assert prev[0 + j] == Entry(init[j], stat(init[j]));
      assert init[j] in init;
    }
  }

  /** An untracked path is appended with its fresh stat value and reported "added". */
  lemma StepUntracked(entries: seq<Entry>, p: Path, stat: Path -> StatResult)
    requires p !in PathSet(entries)
    ensures Step(entries, p, stat) == Outcome(entries + [Entry(p, stat(p))], [Event(p, Added)])
  {
  }

  /**
   * The first crawl of a repetition-free path list leaves unique tracked
   * paths, exactly the crawled ones, each with its current stat value: the
   * state the lemmas about `compare` start from.
   */
  lemma FirstCrawl(paths: seq<Path>, stat: Path -> StatResult)
    requires Distinct(paths)
    ensures Unique(Appended([], paths, stat))
    ensures PathSet(Appended([], paths, stat)) == Elems(paths)
    ensures InSync(Appended([], paths, stat), stat)
  {
    var added := Appended([], paths, stat);
    forall j | 0 <= j < |added| ensures added[j] == Entry(paths[j], stat(paths[j])) {
      assert added[0 + j] == Entry(paths[j], stat(paths[j]));
    }
    forall q | q in Elems(paths) ensures q in PathSet(added) {
      var j :| 0 <= j < |paths| && paths[j] == q;
      assert added[j] in added;
    }
  }
}
