/**
 Restoring and deleting one item, followed by a reconcile pass: the world of files and rows, seen by the pass as
 paths split into components.
 */
module TrashLifecycle {
  import opened Basics
  import opened TrashInfo
  import opened TrashRoot
  import opened StagedTrash
  import R = TrashReconcile

  // ---- paths and components ----

  /** The components between the slashes. */
  function Split(p: Path): (cs: R.Path)
    ensures cs != []
  {
    if p == [] then [[]]
    else
      var cs, c := Split(p[..|p| - 1]), p[|p| - 1];
      if c == SLASH then cs + [[]] else cs[|cs| - 1 := cs[|cs| - 1] + [c]]
  }

  function Join(cs: R.Path): Path
    requires cs != []
  {
    if |cs| == 1 then cs[0] else Join(cs[..|cs| - 1]) + [SLASH] + cs[|cs| - 1]
  }

  lemma {:induction false} JoinUndoesSplit(p: Path)
    ensures Join(Split(p)) == p
    decreases |p|
  {
    if p != [] {
      var init, c := p[..|p| - 1], p[|p| - 1];
      JoinUndoesSplit(init);
      var cs := Split(init);
      assert p == init + [c];
      if c == SLASH {
        assert (cs + [[]])[..|cs|] == cs;
      } else {
        JoinExtends(cs, c);
      }
    }
  }

  lemma JoinExtends(cs: R.Path, c: byte)
    requires cs != []
    ensures Join(cs[|cs| - 1 := cs[|cs| - 1] + [c]]) == Join(cs) + [c]
  {
    var ds := cs[|cs| - 1 := cs[|cs| - 1] + [c]];
    assert ds[..|ds| - 1] == cs[..|cs| - 1];
  }

  /** So paths with the same components are the same. */
  lemma SplitIsInjective(p: Path, q: Path)
    ensures Split(p) == Split(q) <==> p == q
  {
    JoinUndoesSplit(p);
    JoinUndoesSplit(q);
  }

  // ---- the world as a pass sees it ----

  predicate UniquePaths(w: World) {
    forall a, b :: a in w.rows && b in w.rows && w.rows[a].path == w.rows[b].path ==> a == b
  }

  function FsOf(w: World): R.Fs {
    var dirs := {[]} + set d | d in w.dirs :: Split(d);
    R.Fs(dirs + (set p | p in w.disk.live :: Split(p)), dirs)
  }

  ghost predicate RowsOf(w: World, rows: R.Rows) {
    && (forall q :: q in rows ==> exists id :: id in w.rows && Split(w.rows[id].path) == q)
    && (forall id :: id in w.rows ==>
          Split(w.rows[id].path) in rows && rows[Split(w.rows[id].path)] == w.rows[id].trashed)
  }

  ghost predicate Recorded(es: set<Entry>, q: R.Path) {
    exists e :: e in es && Split(e.original) == q
  }

  /** The scanner lists the paths recorded in the trash; a payload may be a file or a directory with files in it. */
  ghost predicate EntriesOf(w: World, entries: seq<R.Entry>) {
    && (forall i :: 0 <= i < |entries| ==> R.WellFormedEntry(entries[i]))
    && (forall q :: q in R.Originals(entries) <==> Recorded(Entries(w.disk), q))
  }

  /** A reconcile pass that starts in `w`. */
  ghost predicate Shows(w: World, rows: R.Rows, s: R.Setting, entries: seq<R.Entry>) {
    UniquePaths(w) && s.fs == FsOf(w) && R.ParentClosed(s.fs) && RowsOf(w, rows) && EntriesOf(w, entries)
  }

  /** Every world with distinct paths and complete directories can be reconciled. */
  lemma PassExists(w: World, roots: seq<R.Path>, supported: R.Path -> bool)
    requires UniquePaths(w) && R.ParentClosed(FsOf(w))
    ensures exists rows, entries :: Shows(w, rows, R.Setting(FsOf(w), roots, supported), entries)
  {
    var paths := set id | id in w.rows :: Split(w.rows[id].path);
    var rows := map p | p in paths :: exists id :: id in w.rows && Split(w.rows[id].path) == p && w.rows[id].trashed;
    forall id | id in w.rows
      ensures Split(w.rows[id].path) in rows && rows[Split(w.rows[id].path)] == w.rows[id].trashed
    {
      forall other | other in w.rows && Split(w.rows[other].path) == Split(w.rows[id].path)
        ensures other == id
      {
        SplitIsInjective(w.rows[other].path, w.rows[id].path);
      }
    }
    var entries := ListEntries(Entries(w.disk));
    assert RowsOf(w, rows) && EntriesOf(w, entries);
    assert Shows(w, rows, R.Setting(FsOf(w), roots, supported), entries);
  }

  lemma ListEntries(es: set<Entry>) returns (entries: seq<R.Entry>)
    ensures forall i :: 0 <= i < |entries| ==> R.WellFormedEntry(entries[i])
    ensures forall q :: q in R.Originals(entries) <==> Recorded(es, q)
    decreases |es|
  {
    if es == {} {
      entries := [];
    } else {
      var x :| x in es;
      var others := ListEntries(es - {x});
      entries := [R.FileEntry(Split(x.original), true)] + others;
      forall q
        ensures q in R.Originals(entries) <==> q == Split(x.original) || q in R.Originals(others)
      {
        if q in R.Originals(others) {
          var i :| 0 <= i < |others| && others[i].original == q;
          assert entries[i + 1].original == q;
        }
        assert entries[0].original == Split(x.original);
      }
      forall q
        ensures Recorded(es, q) <==> q == Split(x.original) || Recorded(es - {x}, q)
      {
        if e :| e in es && Split(e.original) == q {
          assert e == x || e in es - {x};
        }
      }
    }
  }

  ghost function After(rows: R.Rows, s: R.Setting, entries: seq<R.Entry>): R.Rows {
    R.Commit(rows, R.PlanFor(rows, s, entries))
  }

  lemma OriginalIff(w: World, entries: seq<R.Entry>, path: Path)
    requires EntriesOf(w, entries)
    ensures Split(path) in R.Originals(entries) <==> HasEntry(w.disk, path)
  {
    if e :| e in Entries(w.disk) && Split(e.original) == Split(path) {
      SplitIsInjective(e.original, path);
    }
  }

  lemma LiveFileExists(w: World, path: Path)
    requires path in w.disk.live
    ensures Split(path) in FsOf(w).existing
  {
  }

  /** A trashed row is pruned exactly if nothing is at its path, the directory is there and the trash has no entry. */
  lemma TrashedRowIsPrunedIff(w: World, id: Id, rows: R.Rows, s: R.Setting, entries: seq<R.Entry>)
    requires Shows(w, rows, s, entries) && IsTrashed(w, id)
    ensures var p := Split(w.rows[id].path);
            && (p !in After(rows, s, entries) <==>
                  p !in s.fs.existing && R.ParentIsDir(s.fs, p) && !HasEntry(w.disk, w.rows[id].path))
            && (p in After(rows, s, entries) ==> After(rows, s, entries)[p])
  {
    var p := Split(w.rows[id].path);
    assert p in rows && rows[p];
    OriginalIff(w, entries, w.rows[id].path);
    R.PassEffect(rows, s, entries, p);
    R.CandidatesAreAbsent(s, entries);
  }

  // ---- the two operations and the next pass ----

  /**
   A database failure after the unlink leaves a trashed row. The next pass prunes it exactly if its directory exists,
   nothing is at its path, and the trash has no other entry for the path.
   */
  lemma FailedDeletionIsPrunedIff(
    w: World, id: Id, name: Name, staged: Name, faults: DeleteFaults,
    rows: R.Rows, s: R.Setting, entries: seq<R.Entry>)
    requires !faults.stage && !faults.unlink && faults.database
    requires IsTrashed(w, id) && Entry(w.rows[id].path, name) in Entries(w.disk)
    requires Shows(DeleteOne(w, id, name, staged, faults).1, rows, s, entries)
    ensures var p := Split(w.rows[id].path);
            p !in After(rows, s, entries) <==>
            && p !in s.fs.existing && R.ParentIsDir(s.fs, p)
            && !HasOtherEntry(w, w.rows[id].path, name, staged)
  {
    FailedRowDeletionLeavesOrphanRow(w, id, name, staged, faults);
    TrashedRowIsPrunedIff(DeleteOne(w, id, name, staged, faults).1, id, rows, s, entries);
  }

  /** As long as its entry is there, a trashed row survives every pass. */
  lemma TrashedRowSurvives(w: World, id: Id, rows: R.Rows, s: R.Setting, entries: seq<R.Entry>)
    requires Shows(w, rows, s, entries) && IsTrashed(w, id) && HasEntry(w.disk, w.rows[id].path)
    ensures var p := Split(w.rows[id].path); p in After(rows, s, entries) && After(rows, s, entries)[p]
  {
    TrashedRowIsPrunedIff(w, id, rows, s, entries);
  }

  /** A restored row stays live through the next pass, even when its info file was left behind. */
  lemma RestoredRowStaysLive(
    w: World, id: Id, name: Name, faults: RestoreFaults, rows: R.Rows, s: R.Setting, entries: seq<R.Entry>)
    requires RestoreOne(w, id, name, faults).0 && Shows(RestoreOne(w, id, name, faults).1, rows, s, entries)
    ensures var p := Split(w.rows[id].path); p in After(rows, s, entries) && !After(rows, s, entries)[p]
  {
    SuccessfulRestore(w, id, name, faults);
    var w' := RestoreOne(w, id, name, faults).1;
    var p := Split(w.rows[id].path);
    assert w'.rows[id] == Row(w.rows[id].path, false);
    LiveFileExists(w', w.rows[id].path);
    R.PassConverges(rows, s, entries);
  }

  /** A failed restore, even one whose rollback failed, leaves a row that is still trashed after the next pass. */
  lemma FailedRestoreSurvives(
    w: World, id: Id, name: Name, faults: RestoreFaults, rows: R.Rows, s: R.Setting, entries: seq<R.Entry>)
    requires IsTrashed(w, id) && HasEntry(w.disk, w.rows[id].path) && !RestoreOne(w, id, name, faults).0
    requires Shows(RestoreOne(w, id, name, faults).1, rows, s, entries)
    ensures var p := Split(w.rows[id].path); p in After(rows, s, entries) && After(rows, s, entries)[p]
  {
    FailedRestoreKeepsFilesAndRows(w, id, name, faults);
    var w' := RestoreOne(w, id, name, faults).1;
    TrashedRowIsPrunedIff(w', id, rows, s, entries);
    if Stranded(w, id, name, faults) {
      LiveFileExists(w', w.rows[id].path);
    }
  }
}
