/**
 * Pass 2 of `compare` as Watch.py:107-110 writes it: a `for` loop over
 * `self.list` whose body calls `self.list.remove(f)` on that same list.
 * Python's list iterator walks an index; removing the current element shifts
 * the next one into its slot and the index then moves past it, so the entry
 * right after each removed one is never examined. Snapshot.Prune is the
 * intended behaviour, which the rest of the model uses.
 */
module RemovalQuirk {
  import opened Events
  import opened Snapshot

  /**
   * The source's loop from iterator index `i` on, over the list as it stands
   * after the removals so far. It never drops an entry whose path is
   * incoming and only reports absent paths, but it may keep absent ones.
   */
  function RemoveWhileIterating(entries: seq<Entry>, paths: seq<Path>, i: nat): (o: Outcome)
    ensures forall ev :: ev in o.events ==> ev.kind == Removed && ev.path !in paths
    ensures forall e :: e in entries && e.path in paths ==> e in o.entries
    ensures forall e :: e in o.entries ==> e in entries
    decreases |entries| - i
  {
    if i >= |entries| then Outcome(entries, [])
    else if entries[i].path !in paths then
      var rest := RemoveWhileIterating(entries[..i] + entries[i + 1..], paths, i + 1);
      Outcome(rest.entries, [Event(entries[i].path, Removed)] + rest.events)
    else RemoveWhileIterating(entries, paths, i + 1)
  }

  /**
   * Two tracked files, both gone from the new crawl: the loop as written
   * removes and reports the first, skips the second, and leaves it tracked,
   * so the tracked paths no longer match the crawl. The intended pass removes
   * and reports both.
   */
  lemma RemovalSkipsNext(s: StatResult)
    ensures RemoveWhileIterating([Entry("/a/1.txt", s), Entry("/a/2.txt", s)], [], 0)
         == Outcome([Entry("/a/2.txt", s)], [Event("/a/1.txt", Removed)])
    ensures Prune([Entry("/a/1.txt", s), Entry("/a/2.txt", s)], [])
         == Outcome([], [Event("/a/1.txt", Removed), Event("/a/2.txt", Removed)])
  {
    var a, b := Entry("/a/1.txt", s), Entry("/a/2.txt", s);
    assert [a, b][..0] + [a, b][1..] == [b];
    assert RemoveWhileIterating([b], [], 1) == Outcome([b], []);
    PruneSnoc([], a, []);
    PruneSnoc([a], b, []);
    assert [a] + [b] == [a, b];
  }
}
