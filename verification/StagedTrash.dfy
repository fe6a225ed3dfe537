/**
 Restoring and permanently deleting trashed media. Both stage the file move, write the database in one
 atomic step, and roll the file back when they are not committed. Faults name the steps that fail.
 */
module StagedTrash {
  import opened Basics
  import opened TrashInfo
  import opened TrashRoot

  type Id = int

  datatype Row = Row(path: Path, trashed: bool)

  /** `dirs` are the directories of the library. */
  datatype World = World(disk: Disk, rows: map<Id, Row>, dirs: set<Path>)

  const SLASH: byte := 0x2f

  /** The directories above a path; the root is the empty path. */
  function Ancestors(p: Path): set<Path> {
    set i | 0 <= i < |p| && p[i] == SLASH :: p[..i]
  }

  /** The path goes on with a slash behind the directory. */
  ghost predicate IsAbove(dir: Path, path: Path) {
    exists rest: Path :: path == dir + ([0x2f] + rest)
  }

  lemma AncestorsAreAbove(dir: Path, path: Path)
    ensures dir in Ancestors(path) <==> IsAbove(dir, path)
  {
    if dir in Ancestors(path) {
      var i :| 0 <= i < |path| && path[i] == SLASH && path[..i] == dir;
      assert path == dir + ([0x2f] + path[i + 1..]);
    }
    if IsAbove(dir, path) {
      var rest: Path :| path == dir + ([0x2f] + rest);
      assert path[|dir|] == SLASH && path[..|dir|] == dir;
    }
  }

  predicate HasEntry(d: Disk, path: Path) {
    exists e :: e in Entries(d) && e.original == path
  }

  predicate IsTrashed(w: World, id: Id) {
    id in w.rows && w.rows[id].trashed
  }

  // ---- restore ----

  /** Which steps fail. */
  datatype RestoreFaults = RestoreFaults(
    parent: Option<set<Path>>,  // creating the directories fails after making these
    move: bool, database: bool, rollback: bool, info: bool)

  /** The file is moved back; nothing may be in its place. */
  function MovedOut(d: Disk, path: Path, name: Name): Disk
    requires name in d.files
  {
    Disk(d.live[path := d.files[name]], d.files - {name}, d.infos)
  }

  /** The guard's rollback: from the original place to the trash again. */
  function PutBack(d: Disk, path: Path, name: Name): Disk
    requires path in d.live
  {
    Disk(d.live - {path}, d.files[name := d.live[path]], d.infos)
  }

  function RestoreOne(w: World, id: Id, name: Name, faults: RestoreFaults): (bool, World) {
    if !IsTrashed(w, id) then (false, w)
    else
      var path := w.rows[id].path;
      if Entry(path, name) !in Entries(w.disk) then (false, w)
      else if faults.parent.Some? then (false, w.(dirs := w.dirs + faults.parent.value * Ancestors(path)))
      else
        var w1 := w.(dirs := w.dirs + Ancestors(path));
        if path in w.disk.live || faults.move then (false, w1)
        else
          InEntries(w.disk, Entry(path, name));
          var moved := MovedOut(w.disk, path, name);
          if faults.database then (false, w1.(disk := if faults.rollback then moved else PutBack(moved, path, name)))
          else
            var infos := if faults.info then moved.infos else moved.infos - {name};
            (true, w1.(disk := moved.(infos := infos), rows := w.rows[id := Row(path, false)]))
  }

  /** The file was moved back, the database failed, and the rollback failed as well. */
  predicate Stranded(w: World, id: Id, name: Name, faults: RestoreFaults) {
    && IsTrashed(w, id) && Entry(w.rows[id].path, name) in Entries(w.disk) && w.rows[id].path !in w.disk.live
    && faults.parent.None? && !faults.move && faults.database && faults.rollback
  }

  /**
   A failed restore, at whatever point it fails, leaves rows as they were, and files and infos exactly unless its
   rollback failed; then the file is at its original place. All else it may leave behind are directories above it.
   */
  lemma FailedRestoreKeepsFilesAndRows(w: World, id: Id, name: Name, faults: RestoreFaults)
    requires !RestoreOne(w, id, name, faults).0
    ensures var w' := RestoreOne(w, id, name, faults).1;
            && w'.rows == w.rows
            && (w'.disk == w.disk <==> !Stranded(w, id, name, faults))
            && (Stranded(w, id, name, faults) ==>
                  name in w.disk.files && w'.disk == MovedOut(w.disk, w.rows[id].path, name))
            && w.dirs <= w'.dirs
            && (id in w.rows ==> w'.dirs <= w.dirs + Ancestors(w.rows[id].path))
            && (id !in w.rows ==> w'.dirs == w.dirs)
  {
    if IsTrashed(w, id) && Entry(w.rows[id].path, name) in Entries(w.disk) && w.rows[id].path !in w.disk.live {
      InEntries(w.disk, Entry(w.rows[id].path, name));
      RollbackUndoesMove(w.disk, w.rows[id].path, name);
      assert w.rows[id].path in MovedOut(w.disk, w.rows[id].path, name).live;
    }
  }

  lemma RollbackUndoesMove(d: Disk, path: Path, name: Name)
    requires path !in d.live && name in d.files
    ensures PutBack(MovedOut(d, path, name), path, name) == d
  {
    var d' := PutBack(MovedOut(d, path, name), path, name);
    assert d'.live == d.live && d'.files == d.files;
  }

  /** A restore succeeds exactly when the row is trashed, an entry is resolved and the place is free. */
  lemma RestoreSucceedsIff(w: World, id: Id, name: Name, faults: RestoreFaults)
    ensures RestoreOne(w, id, name, faults).0 <==>
            && IsTrashed(w, id) && Entry(w.rows[id].path, name) in Entries(w.disk) && w.rows[id].path !in w.disk.live
            && faults.parent.None? && !faults.move && !faults.database
  {
  }

  /**
   A successful restore makes the row live and puts the payload back under its original path, with every directory
   above it. No file that was in the library is touched, and the scanner loses exactly this entry, even when its info
   file stays behind.
   */
  lemma SuccessfulRestore(w: World, id: Id, name: Name, faults: RestoreFaults)
    requires RestoreOne(w, id, name, faults).0
    ensures var w', path := RestoreOne(w, id, name, faults).1, w.rows[id].path;
            && w'.rows == w.rows[id := Row(path, false)] && w'.dirs == w.dirs + Ancestors(path)
            && name in w.disk.files && w'.disk.live == w.disk.live[path := w.disk.files[name]] && path !in w.disk.live
            && w'.disk.files == w.disk.files - {name}
            && w'.disk.infos == (if faults.info then w.disk.infos else w.disk.infos - {name})
            && Entries(w'.disk) == Entries(w.disk) - {Entry(path, name)}
            && forall d :: d in w'.dirs <==> d in w.dirs || IsAbove(d, path)
  {
    forall d
      ensures d in Ancestors(w.rows[id].path) <==> IsAbove(d, w.rows[id].path)
    {
      AncestorsAreAbove(d, w.rows[id].path);
    }
    var w', path := RestoreOne(w, id, name, faults).1, w.rows[id].path;
    InEntries(w.disk, Entry(path, name));
    forall e
      ensures e in Entries(w'.disk) <==> e in Entries(w.disk) && e != Entry(path, name)
    {
      InEntries(w'.disk, e);
      InEntries(w.disk, e);
    }
  }

  // ---- permanent deletion ----

  datatype DeleteFaults = DeleteFaults(stage: bool, unlink: bool, rollback: bool, info: bool, database: bool)

  /** The payload gets a hidden sibling name; an existing file of that name would be replaced. */
  function Staged(d: Disk, name: Name, staged: Name): Disk
    requires name in d.files
  {
    d.(files := (d.files - {name})[staged := d.files[name]])
  }

  function Unstaged(d: Disk, name: Name, staged: Name): Disk
    requires staged in d.files
  {
    d.(files := (d.files - {staged})[name := d.files[staged]])
  }

  function DeleteOne(w: World, id: Id, name: Name, staged: Name, faults: DeleteFaults): (bool, World) {
    if !IsTrashed(w, id) then (false, w)
    else
      var path := w.rows[id].path;
      if Entry(path, name) !in Entries(w.disk) || faults.stage then (false, w)
      else
        InEntries(w.disk, Entry(path, name));
        var hidden := Staged(w.disk, name, staged);
        if faults.unlink then (false, w.(disk := if faults.rollback then hidden else Unstaged(hidden, name, staged)))
        else
          var infos := if faults.info then hidden.infos else hidden.infos - {name};
          var gone := hidden.(files := hidden.files - {staged}, infos := infos);
          if faults.database then (false, w.(disk := gone))
          else (true, w.(disk := gone, rows := w.rows - {id}))
  }

  /** A deletion succeeds exactly when the row is trashed, an entry is resolved and neither file nor row resists. */
  lemma DeleteSucceedsIff(w: World, id: Id, name: Name, staged: Name, faults: DeleteFaults)
    ensures DeleteOne(w, id, name, staged, faults).0 <==>
            && IsTrashed(w, id) && Entry(w.rows[id].path, name) in Entries(w.disk)
            && !faults.stage && !faults.unlink && !faults.database
    ensures faults.stage || !IsTrashed(w, id) || Entry(w.rows[id].path, name) !in Entries(w.disk) ==>
              DeleteOne(w, id, name, staged, faults).1 == w
  {
  }

  /** A failed unlink is undone exactly if the rename back works and the hidden name was not in use. */
  lemma FailedUnlinkIsUndoneIff(w: World, id: Id, name: Name, staged: Name, faults: DeleteFaults)
    requires !faults.stage && faults.unlink
    requires IsTrashed(w, id) && Entry(w.rows[id].path, name) in Entries(w.disk)
    ensures DeleteOne(w, id, name, staged, faults).1 == w <==>
            staged == name || (!faults.rollback && staged !in w.disk.files)
  {
    InEntries(w.disk, Entry(w.rows[id].path, name));
    var hidden := Staged(w.disk, name, staged);
    var back := Unstaged(hidden, name, staged);
    if staged == name {
      assert hidden.files == w.disk.files && back.files == w.disk.files;
    } else {
      assert name !in hidden.files && staged !in back.files;
      assert staged !in w.disk.files ==> back.files == w.disk.files;
    }
  }

  /** Once unlinked, the payloads of the two names and their entries are gone, and all others are untouched. */
  lemma UnlinkRemovesOnlyItsNames(w: World, id: Id, name: Name, staged: Name, faults: DeleteFaults)
    requires IsTrashed(w, id) && Entry(w.rows[id].path, name) in Entries(w.disk)
    requires !faults.stage && !faults.unlink
    ensures var (ok, w') := DeleteOne(w, id, name, staged, faults);
            && (ok <==> !faults.database)
            && w'.rows == (if ok then w.rows - {id} else w.rows) && w'.dirs == w.dirs
            && w'.disk.live == w.disk.live && w'.disk.files == w.disk.files - {name, staged}
            && w'.disk.infos == (if faults.info then w.disk.infos else w.disk.infos - {name})
            && forall e :: e in Entries(w'.disk) <==> e in Entries(w.disk) && e.name != name && e.name != staged
  {
    var (ok, w') := DeleteOne(w, id, name, staged, faults);
    InEntries(w.disk, Entry(w.rows[id].path, name));
    assert w'.disk.files == w.disk.files - {name, staged};
    forall e
      ensures e in Entries(w'.disk) <==> e in Entries(w.disk) && e.name != name && e.name != staged
    {
      InEntries(w'.disk, e);
      InEntries(w.disk, e);
    }
  }

  /** The path has an entry under neither of the two names. */
  ghost predicate HasOtherEntry(w: World, path: Path, name: Name, staged: Name) {
    exists e :: e in Entries(w.disk) && e.original == path && e.name != name && e.name != staged
  }

  /** A row whose database deletion failed is left trashed, with no entry unless the path had another one. */
  lemma FailedRowDeletionLeavesOrphanRow(w: World, id: Id, name: Name, staged: Name, faults: DeleteFaults)
    requires !faults.stage && !faults.unlink && faults.database
    requires IsTrashed(w, id) && Entry(w.rows[id].path, name) in Entries(w.disk)
    ensures var w', path := DeleteOne(w, id, name, staged, faults).1, w.rows[id].path;
            && IsTrashed(w', id) && w'.rows == w.rows && w'.dirs == w.dirs && w'.disk.live == w.disk.live
            && (HasEntry(w'.disk, path) <==> HasOtherEntry(w, path, name, staged))
  {
    UnlinkRemovesOnlyItsNames(w, id, name, staged, faults);
  }

  // ---- the operations ----

  datatype PreparedRestore = PreparedRestore(original: Path, trashed: Name)

  datatype PreparedDelete = PreparedDelete(original: Name, staged: Name)

  datatype BatchResult = BatchResult(changed: seq<Id>, failures: seq<Id>)

  class Library {
    var disk: Disk
    var rows: map<Id, Row>
    var dirs: set<Path>

    ghost function View(): World
      reads this
    {
      World(disk, rows, dirs)
    }

    /** Resolve a verified entry for the path; any of several entries may be taken. */
    method Resolve(path: Path) returns (r: Option<Name>)
      ensures r.Some? <==> HasEntry(disk, path)
      ensures r.Some? ==> Entry(path, r.value) in Entries(disk)
    {
      if e :| e in Entries(disk) && e.original == path {
        return Some(e.name);
      }
      r := None;
    }

    /** Move the payload back to its original path, never over another file. */
    method PrepareRestore(path: Path, faults: RestoreFaults) returns (p: Option<PreparedRestore>)
      modifies `disk, `dirs
      ensures p.None? ==> disk == old(disk)
      ensures dirs == if !HasEntry(old(disk), path) then old(dirs)
                      else if faults.parent.Some? then old(dirs) + faults.parent.value * Ancestors(path)
                      else old(dirs) + Ancestors(path)
      ensures p.Some? <==>
                HasEntry(old(disk), path) && path !in old(disk).live && faults.parent.None? && !faults.move
      ensures p.Some? ==>
                && p.value.original == path && Entry(path, p.value.trashed) in Entries(old(disk))
                && p.value.trashed in old(disk).files && disk == MovedOut(old(disk), path, p.value.trashed)
    {
      var name := Resolve(path);
      if name.None? {
        return None;
      }
      if faults.parent.Some? {
        dirs := dirs + faults.parent.value * Ancestors(path);
        return None;
      }
      dirs := dirs + Ancestors(path);
      if path in disk.live || faults.move {
        return None;
      }
      InEntries(disk, Entry(path, name.value));
      disk := disk.(live := disk.live[path := disk.files[name.value]], files := disk.files - {name.value});
      p := Some(PreparedRestore(path, name.value));
    }

    /** What dropping an uncommitted guard does. */
    method DropRestore(p: PreparedRestore)
      requires p.original in disk.live
      modifies `disk
      ensures disk == PutBack(old(disk), p.original, p.trashed)
    {
      disk := disk.(live := disk.live - {p.original}, files := disk.files[p.trashed := disk.live[p.original]]);
    }

    method RestoreItem(id: Id, faults: RestoreFaults) returns (ok: bool, ghost name: Name)
      modifies this
      ensures IsTrashed(old(View()), id) && HasEntry(old(disk), old(rows)[id].path) ==>
                Entry(old(rows)[id].path, name) in Entries(old(disk))
      ensures (ok, View()) == RestoreOne(old(View()), id, name, faults)
    {
      name := [];
      if id !in rows || !rows[id].trashed {
        return false, name;
      }
      var path := rows[id].path;
      if e :| e in Entries(disk) && e.original == path {
        name := e.name;
      }
      var p := PrepareRestore(path, faults);
      if p.None? {
        return false, name;
      }
      name := p.value.trashed;
      if faults.database {
        if !faults.rollback {
          DropRestore(p.value);
        }
        return false, name;
      }
      rows := rows[id := Row(path, false)];
      if !faults.info {
        disk := disk.(infos := disk.infos - {p.value.trashed});
      }
      ok := true;
    }

    method DeleteItem(id: Id, staged: Name, faults: DeleteFaults) returns (ok: bool, ghost name: Name)
      modifies this
      ensures IsTrashed(old(View()), id) && HasEntry(old(disk), old(rows)[id].path) ==>
                Entry(old(rows)[id].path, name) in Entries(old(disk))
      ensures (ok, View()) == DeleteOne(old(View()), id, name, staged, faults)
    {
      name := [];
      if id !in rows || !rows[id].trashed {
        return false, name;
      }
      var path := rows[id].path;
      var found := Resolve(path);
      if found.None? {
        return false, name;
      }
      name := found.value;
      if faults.stage {
        return false, name;
      }
      InEntries(disk, Entry(path, found.value));
      var p := PreparedDelete(found.value, staged);
      disk := disk.(files := (disk.files - {p.original})[p.staged := disk.files[p.original]]);
      if faults.unlink {
        if faults.rollback {
          return false, name;
        }
        disk := disk.(files := (disk.files - {p.staged})[p.original := disk.files[p.staged]]);
        return false, name;
      }
      disk := disk.(files := disk.files - {p.staged});
      if !faults.info {
        disk := disk.(infos := disk.infos - {p.original});
      }
      if faults.database {
        return false, name;
      }
      rows := rows - {id};
      ok := true;
    }

    /** One item of a batch. */
    method RestoreInBatch(id: Id, faults: RestoreFaults) returns (ok: bool)
      modifies this
      ensures OnlyRestored(old(View()), View())
      ensures ok ==> id in rows && !rows[id].trashed
    {
      ghost var before := View();
      ghost var name;
      ok, name := RestoreItem(id, faults);
      RestoreIsMonotone(before, id, name, faults);
    }

    /** Restore several items; one failure does not stop the others. */
    method RestoreBatch(ids: seq<Id>, faults: seq<RestoreFaults>) returns (r: BatchResult)
      requires |faults| == |ids|
      modifies this
      ensures multiset(r.changed) + multiset(r.failures) == multiset(ids)
      ensures AllLive(View(), r.changed)
      ensures OnlyRestored(old(View()), View())
    {
      var changed, failures := [], [];
      for i := 0 to |ids|
        invariant multiset(changed) + multiset(failures) == multiset(ids[..i])
        invariant AllLive(View(), changed)
        invariant OnlyRestored(old(View()), View())
      {
        ghost var before := View();
        assert ids[..i + 1] == ids[..i] + [ids[i]];
        var ok := RestoreInBatch(ids[i], faults[i]);
        OnlyRestoredComposes(old(View()), before, View());
        StillLive(before, View(), changed);
        if ok {
          changed := changed + [ids[i]];
        } else {
          failures := failures + [ids[i]];
        }
      }
      assert ids[..|ids|] == ids;
      r := BatchResult(changed, failures);
    }
  }

  /**
   What any number of restores may do: rows only turn live, no library file changes or disappears, and no
   content is lost: every payload is still in the library or in the trash.
   */
  ghost predicate OnlyRestored(w: World, w': World) {
    && w'.rows.Keys == w.rows.Keys
    && (forall id :: id in w.rows ==> w'.rows[id] == w.rows[id] || w'.rows[id] == w.rows[id].(trashed := false))
    && (forall p :: p in w.disk.live ==> p in w'.disk.live && w'.disk.live[p] == w.disk.live[p])
    && w'.disk.live.Values + w'.disk.files.Values == w.disk.live.Values + w.disk.files.Values
    && |w'.disk.live| + |w'.disk.files| == |w.disk.live| + |w.disk.files|
  }

  predicate AllLive(w: World, ids: seq<Id>) {
    forall id :: id in ids ==> id in w.rows && !w.rows[id].trashed
  }

  lemma StillLive(w: World, w': World, ids: seq<Id>)
    requires AllLive(w, ids) && OnlyRestored(w, w')
    ensures AllLive(w', ids)
  {
  }

  lemma RestoreIsMonotone(w: World, id: Id, name: Name, faults: RestoreFaults)
    ensures OnlyRestored(w, RestoreOne(w, id, name, faults).1)
  {
    var (ok, w') := RestoreOne(w, id, name, faults);
    if ok {
      SuccessfulRestore(w, id, name, faults);
      var path, live, files := w.rows[id].path, w.disk.live, w.disk.files;
      MovedValues(live, files, path, name);
    } else {
      FailedRestoreKeepsFilesAndRows(w, id, name, faults);
      if Stranded(w, id, name, faults) {
        MovedValues(w.disk.live, w.disk.files, w.rows[id].path, name);
      }
    }
  }

  lemma MovedValues(live: map<Path, Content>, files: map<Name, Content>, path: Path, name: Name)
    requires path !in live && name in files
    ensures live[path := files[name]].Values + (files - {name}).Values == live.Values + files.Values
    ensures |live[path := files[name]]| + |files - {name}| == |live| + |files|
  {
    ValuesAfterAdding(live, path, files[name]);
    ValuesAfterRemoving(files, name);
    Regroup(live.Values, (files - {name}).Values, {files[name]});
    SizeAfterAdding(live, path, files[name]);
    SizeAfterRemoving(files, name);
  }

  lemma Regroup<T>(a: set<T>, b: set<T>, c: set<T>)
    ensures (a + c) + b == a + (b + c)
  {
  }

  lemma SizeAfterAdding<K, V>(m: map<K, V>, k: K, v: V)
    requires k !in m
    ensures |m[k := v]| == |m| + 1
  {
    assert m[k := v].Keys == m.Keys + {k};
  }

  lemma SizeAfterRemoving<K, V>(m: map<K, V>, k: K)
    requires k in m
    ensures |m - {k}| == |m| - 1
  {
    assert (m - {k}).Keys == m.Keys - {k};
  }

  lemma ValuesAfterAdding<K, V>(m: map<K, V>, k: K, v: V)
    requires k !in m
    ensures m[k := v].Values == m.Values + {v}
  {
    forall x
      ensures x in m[k := v].Values <==> x in m.Values + {v}
    {
      if x in m.Values {
        var j :| j in m && m[j] == x;
        assert m[k := v][j] == x;
      }
      assert m[k := v][k] == v;
    }
  }

  lemma ValuesAfterRemoving<K, V>(m: map<K, V>, k: K)
    requires k in m
    ensures (m - {k}).Values + {m[k]} == m.Values
  {
    forall x
      ensures x in (m - {k}).Values + {m[k]} <==> x in m.Values
    {
      if x in m.Values {
        var j :| j in m && m[j] == x;
        assert j != k ==> (m - {k})[j] == x;
      }
    }
  }

  lemma OnlyRestoredComposes(a: World, b: World, c: World)
    requires OnlyRestored(a, b) && OnlyRestored(b, c)
    ensures OnlyRestored(a, c)
  {
  }
}
