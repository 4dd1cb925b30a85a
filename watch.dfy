/**
 * The two classes of Watch.py: `File`, one tracked path with the stat value
 * last seen for it, and `FileList`, the list of Files that `add_list` seeds on
 * the first crawl and `compare` reconciles on every later one. Each method is
 * proved against the matching function of module Snapshot.
 *
 * The stat call of the source is the parameter `stat`, one fixed function per
 * crawl; the log is the returned sequence of events.
 */
module Watch {
  import opened Events
  import opened Snapshot

  /** `File` (Watch.py:113-144). The path never changes after construction. */
  class File {
    const path: Path
    var attributes: StatResult

    constructor (path: Path, attributes: StatResult)
      ensures this.path == path && this.attributes == attributes
    {
      this.path := path;
      this.attributes := attributes;
    }

    /** `same_name`: the paths are equal character by character; no normalisation. */
    function SameName(file: Path): (r: bool)
      ensures r <==> |path| == |file| && forall i :: 0 <= i < |path| ==> path[i] == file[i]
    {
      path == file
    }

    /**
     * `same_attributes`: the stored stat value equals the fresh one in every
     * field; a difference in any single field makes them differ.
     */
    function SameAttributes(file: Path, stat: Path -> StatResult): (r: bool)
      reads this
      ensures r <==> var now := stat(file);
        && attributes.mode == now.mode && attributes.ino == now.ino
        && attributes.dev == now.dev && attributes.nlink == now.nlink
        && attributes.uid == now.uid && attributes.gid == now.gid
        && attributes.size == now.size && attributes.atime == now.atime
        && attributes.mtime == now.mtime && attributes.ctime == now.ctime
    {
      stat(file) == attributes
    }
  }

  /** The (path, stat) values a sequence of Files holds in the current heap. */
  ghost function Snap(files: seq<File>): (s: seq<Entry>)
    reads files
    ensures |s| == |files|
    ensures forall i :: 0 <= i < |files| ==> s[i] == Entry(files[i].path, files[i].attributes)
  {
    seq(|files|, i requires 0 <= i < |files| reads files => Entry(files[i].path, files[i].attributes))
  }

  /** The Files among `files` whose path is incoming, in order: the ones pass 2 keeps. */
  ghost function KeptFiles(files: seq<File>, paths: seq<Path>): seq<File>
  {
    if files == [] then []
    else
      var kept := KeptFiles(files[..|files| - 1], paths);
      if files[|files| - 1].path in paths then kept + [files[|files| - 1]] else kept
  }

  /** Pass 2 keeps only Files it was given, and keeps distinct Files distinct. */
  lemma {:induction false} KeptFilesFrom(files: seq<File>, paths: seq<Path>)
    ensures forall a :: 0 <= a < |KeptFiles(files, paths)| ==> KeptFiles(files, paths)[a] in files
    ensures (forall i, j :: 0 <= i < j < |files| ==> files[i] != files[j]) ==>
              forall a, b :: 0 <= a < b < |KeptFiles(files, paths)| ==> KeptFiles(files, paths)[a] != KeptFiles(files, paths)[b]
  {
    if files != [] {
      var init, f := files[..|files| - 1], files[|files| - 1];
      assert files == init + [f];
      KeptFilesFrom(init, paths);
      var kept := KeptFiles(init, paths);
      forall a | 0 <= a < |kept| ensures kept[a] in files {
        assert kept[a] in init;
      }
      if forall i, j :: 0 <= i < j < |files| ==> files[i] != files[j] {
        forall a | 0 <= a < |kept| ensures kept[a] != f {
          assert kept[a] in init;
        }
      }
    }
  }

  /** The values the kept Files hold are the entries `Prune` keeps. */
  lemma {:induction false} KeptFilesSnap(files: seq<File>, paths: seq<Path>)
    ensures Snap(KeptFiles(files, paths)) == Prune(Snap(files), paths).entries
  {
    if files != [] {
      var init, f := files[..|files| - 1], files[|files| - 1];
      assert files == init + [f];
      KeptFilesSnap(init, paths);
      assert Snap(files) == Snap(init) + [Entry(f.path, f.attributes)];
      PruneSnoc(Snap(init), Entry(f.path, f.attributes), paths);
      var kept := KeptFiles(init, paths);
      assert Snap(kept + [f]) == Snap(kept) + [Entry(f.path, f.attributes)];
    }
  }

  /**
   * The scan of pass 2: which Files to keep, and the "removed" event of
   * every other one, in list order.
   */
  method KeepIncoming(files: seq<File>, filelist: seq<Path>) returns (kept: seq<File>, emitted: seq<Event>)
    ensures kept == KeptFiles(files, filelist)
    ensures emitted == Prune(Snap(files), filelist).events
  {
    ghost var entries := Snap(files);
    kept, emitted := [], [];
    for i := 0 to |files|
      invariant kept == KeptFiles(files[..i], filelist)
      invariant Prune(entries[..i], filelist).events == emitted
    {
      assert entries[..i + 1] == entries[..i] + [entries[i]];
      PruneSnoc(entries[..i], entries[i], filelist);
      assert files[..i + 1] == files[..i] + [files[i]];
      if files[i].path in filelist {
        kept := kept + [files[i]];
      } else {
        var removal := Log(files[i].path, 2);
        assert removal == [Event(entries[i].path, Removed)];
        emitted := emitted + removal;
      }
    }
    assert files[..|files|] == files && entries[..|files|] == entries;
  }

  /**
   * `FileList` (Watch.py:36-110). The list is an instance field here; in the
   * source it is a class attribute that every instance shares.
   */
  class FileList {
    var list: seq<File>

    /** No File object occurs twice, so updating one record touches one entry. */
    ghost predicate Valid()
      reads this
    {
      forall i, j :: 0 <= i < j < |list| ==> list[i] != list[j]
    }

    /** The tracked entries, in list order. */
    ghost function Entries(): seq<Entry>
      reads this, list
    {
      Snap(list)
    }

    constructor ()
      ensures Valid() && Entries() == []
    {
      list := [];
    }

    /** `length`: the number of tracked entries. */
    function Length(): (n: nat)
      reads this, list
      ensures n == |Entries()|
    {
      |list|
    }

    /** `add`: append a new File for `file` holding its current stat value. */
    method Add(file: Path, stat: Path -> StatResult)
      requires Valid()
      modifies this
      ensures Valid()
      ensures Entries() == old(Entries()) + [Entry(file, stat(file))]
      ensures |list| == |old(list)| + 1 && list[..|old(list)|] == old(list) && fresh(list[|old(list)|])
    {
      var newFile := new File(file, stat(file));
      list := list + [newFile];
      assert Entries() == old(Entries()) + [Entry(file, stat(file))];
    }

    /**
     * `add_list`: one new entry per path, in input order, each with its stat
     * value, and one event per path, "found" on the first crawl and "added"
     * otherwise.
     */
    method AddList(filelist: seq<Path>, first: bool, stat: Path -> StatResult) returns (events: seq<Event>)
      requires Valid()
      modifies this
      ensures Valid()
      ensures Entries() == Appended(old(Entries()), filelist, stat)
      ensures events == Announced(filelist, first)
    {
      ghost var initial := Entries();
      events := [];
      for i := 0 to |filelist|
        invariant Valid()
        invariant Entries() == Appended(initial, filelist[..i], stat)
        invariant events == Announced(filelist[..i], first)
      {
        ghost var before := Entries();
        Add(filelist[i], stat);
        assert Entries() == before + [Entry(filelist[i], stat(filelist[i]))];
        var emitted := Log(filelist[i], if first then 4 else 1);
        assert emitted == [Event(filelist[i], if first then Found else Added)];
        events := events + emitted;
        assert filelist[..i + 1] == filelist[..i] + [filelist[i]];
        AppendedSnoc(initial, filelist[..i], filelist[i], stat);
        AnnouncedSnoc(filelist[..i], filelist[i], first);
      }
      assert filelist[..|filelist|] == filelist;
    }

    /**
     * The inner loop of `compare` (Watch.py:94-99): whether some entry has
     * path `file` and, if so, the index of the last one.
     */
    method Find(file: Path) returns (contains: bool, k: nat)
      ensures contains == LastMatch(Entries(), file).Some?
      ensures contains ==> k == LastMatch(Entries(), file).value
    {
      ghost var entries := Entries();
      contains, k := false, 0;
      for j := 0 to |list|
        invariant contains == LastMatch(entries[..j], file).Some?
        invariant contains ==> k == LastMatch(entries[..j], file).value
      {
        assert entries[..j + 1][..j] == entries[..j];
        assert entries[j].path == list[j].path;
        if list[j].SameName(file) {
          contains, k := true, j;
        }
      }
      assert entries[..|list|] == entries;
    }

    /**
     * One iteration of the first pass of `compare` (Watch.py:94-106): a
     * tracked path whose stat value differs gets the fresh one and a
     * "modified" event, an untracked path is added with an "added" event, and
     * a tracked path whose stat value is equal is left alone.
     */
    method Visit(file: Path, stat: Path -> StatResult) returns (emitted: seq<Event>)
      requires Valid()
      modifies this, list
      ensures Valid()
      ensures |old(list)| <= |list|
      ensures forall j :: 0 <= j < |old(list)| ==> list[j] == old(list)[j]
      ensures forall j :: |old(list)| <= j < |list| ==> fresh(list[j])
      ensures Outcome(Entries(), emitted) == Step(old(Entries()), file, stat)
    {
      var contains, k := Find(file);
      if contains {
        if !list[k].SameAttributes(file, stat) {
          emitted := Log(file, 3);
          assert emitted == [Event(file, Modified)];
          list[k].attributes := stat(file);
          assert Entries() == old(Entries())[k := Entry(file, stat(file))];
        } else {
          emitted := [];
        }
      } else {
        emitted := Log(file, 1);
        assert emitted == [Event(file, Added)];
        Add(file, stat);
      }
    }

    /**
     * The second pass of `compare` (Watch.py:107-110), as intended: every
     * entry whose path is not incoming is reported "removed" and dropped, the
     * others are kept in order. The entries to keep are collected first and
     * the list is replaced afterwards; the source removes from the list while
     * iterating over it instead (see module RemovalQuirk).
     */
    method DropAbsent(filelist: seq<Path>) returns (emitted: seq<Event>)
      requires Valid()
      modifies this
      ensures Valid()
      ensures forall j :: 0 <= j < |list| ==> list[j] in old(list)
      ensures Outcome(Entries(), emitted) == Prune(old(Entries()), filelist)
    {
      var kept;
      kept, emitted := KeepIncoming(list, filelist);
      KeptFilesFrom(list, filelist);
      KeptFilesSnap(list, filelist);
      list := kept;
    }

    /**
     * `compare`: reconcile the tracked list with a fresh list of paths, by
     * pass 1 over the incoming paths and pass 2 over the tracked entries. The
     * new list and the events are those of Snapshot.Compare; module
     * Reconcile proves what they mean.
     */
    method Compare(filelist: seq<Path>, stat: Path -> StatResult) returns (events: seq<Event>)
      requires Valid()
      modifies this, list
      ensures Valid()
      ensures Outcome(Entries(), events) == Snapshot.Compare(old(Entries()), filelist, stat)
    {
      // Watch.py:89 tests the bound method `self.length` against 0, which is
      // never true, so the two passes below always run.
      ghost var initial := Entries();
      events := VisitAll(filelist, stat);
      assert Entries() == Pass1(initial, filelist, stat).entries;
      var removed := DropAbsent(filelist);
      events := events + removed;
    }

    /** The first pass of `compare` (Watch.py:93-106): `Visit` each incoming path in order. */
    method VisitAll(filelist: seq<Path>, stat: Path -> StatResult) returns (events: seq<Event>)
      requires Valid()
      modifies this, list
      ensures Valid()
      ensures |old(list)| <= |list| && forall j :: 0 <= j < |old(list)| ==> list[j] == old(list)[j]
      ensures Outcome(Entries(), events) == Pass1(old(Entries()), filelist, stat)
    {
      ghost var initial := Entries();
      events := [];
      for i := 0 to |filelist|
        invariant Valid()
        invariant |old(list)| <= |list|
        invariant forall j :: 0 <= j < |old(list)| ==> list[j] == old(list)[j]
        invariant forall j :: |old(list)| <= j < |list| ==> fresh(list[j])
        invariant Pass1(initial, filelist[..i], stat) == Outcome(Entries(), events)
      {
        ghost var prev := Pass1(initial, filelist[..i], stat);
        assert Entries() == prev.entries;
        assert filelist[..i + 1][..i] == filelist[..i];
        assert Pass1(initial, filelist[..i + 1], stat)
            == Outcome(Step(prev.entries, filelist[i], stat).entries, prev.events + Step(prev.entries, filelist[i], stat).events);
        var emitted := Visit(filelist[i], stat);
        events := events + emitted;
      }
      assert filelist[..|filelist|] == filelist;
    }
  }
}
