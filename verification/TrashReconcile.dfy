/**
 Reconciling the database's trash marks with the trash directories, in both directions.
 A path is its sequence of components. A row is identified by its path, since the uri column is unique.
 */
module TrashReconcile {
  import opened Basics

  type Name = seq<byte>
  type Path = seq<Name>

  /** What exists at the time of the pass. */
  datatype Fs = Fs(existing: set<Path>, dirs: set<Path>)

  function Parent(p: Path): Path
    requires p != []
  {
    p[..|p| - 1]
  }

  /** Directories exist, and whatever exists lies in a directory. */
  predicate ParentClosed(fs: Fs) {
    fs.dirs <= fs.existing && forall p {:trigger Parent(p)} :: p in fs.existing && p != [] ==> Parent(p) in fs.dirs
  }

  predicate ParentIsDir(fs: Fs, p: Path) {
    p != [] && Parent(p) in fs.dirs
  }

  /** A file below a trashed directory; `readable` says whether its metadata can be extracted. */
  datatype Inner = Inner(relative: Path, readable: bool)

  datatype Entry =
    | FileEntry(original: Path, readable: bool)
    | DirEntry(original: Path, files: seq<Inner>)

  /** Files found by a directory walk lie strictly below it. */
  predicate WellFormedEntry(e: Entry) {
    e.DirEntry? ==> forall i :: 0 <= i < |e.files| ==> e.files[i].relative != []
  }

  /** A trashed media file and the place it came from. */
  datatype Candidate = Candidate(path: Path, readable: bool)

  /** The surroundings of a pass: file system, media roots, and which paths have a supported extension. */
  datatype Setting = Setting(fs: Fs, roots: seq<Path>, supported: Path -> bool)

  predicate UnderRoot(s: Setting, p: Path) {
    exists i :: 0 <= i < |s.roots| && s.roots[i] <= p
  }

  function InnerCandidates(s: Setting, original: Path, files: seq<Inner>): seq<Candidate> {
    if files == [] then []
    else
      InnerCandidates(s, original, files[..|files| - 1])
      + (var f := files[|files| - 1];
         if s.supported(original + f.relative) then [Candidate(original + f.relative, f.readable)] else [])
  }

  /** The media files of one entry that the pass looks at. */
  function CandidatesOf(s: Setting, e: Entry): seq<Candidate> {
    if !UnderRoot(s, e.original) || e.original in s.fs.existing then []
    else match e
      case DirEntry(original, files) => InnerCandidates(s, original, files)
      case FileEntry(original, readable) => if s.supported(original) then [Candidate(original, readable)] else []
  }

  function Candidates(s: Setting, entries: seq<Entry>): seq<Candidate> {
    if entries == [] then [] else Candidates(s, entries[..|entries| - 1]) + CandidatesOf(s, entries[|entries| - 1])
  }

  function Originals(entries: seq<Entry>): set<Path> {
    set i | 0 <= i < |entries| :: entries[i].original
  }

  /** Live rows are false, trashed rows are true. */
  type Rows = map<Path, bool>

  datatype Plan = Plan(inserts: seq<Path>, marks: seq<Path>, prunes: set<Path>)

  /** Admit one file: insert it if it has no row and can be read, mark a live row, leave a trashed one. */
  function Admit(rows: Rows, plan: Plan, c: Candidate): Plan {
    if c.path in rows then (if rows[c.path] then plan else plan.(marks := plan.marks + [c.path]))
    else if c.readable then plan.(inserts := plan.inserts + [c.path])
    else plan
  }

  function AdmitAll(rows: Rows, cs: seq<Candidate>): Plan {
    if cs == [] then Plan([], [], {}) else Admit(rows, AdmitAll(rows, cs[..|cs| - 1]), cs[|cs| - 1])
  }

  /** Trashed rows whose file is neither in place nor in the trash, while its directory is there. */
  function Prunable(rows: Rows, s: Setting, entries: seq<Entry>): set<Path> {
    set p | p in rows && rows[p] && p !in s.fs.existing && ParentIsDir(s.fs, p) && p !in Originals(entries)
  }

  function PlanFor(rows: Rows, s: Setting, entries: seq<Entry>): Plan {
    AdmitAll(rows, Candidates(s, entries)).(prunes := Prunable(rows, s, entries))
  }

  /** Marks, then inserted and marked rows, then deletions of rows that are trashed. */
  function Commit(rows: Rows, plan: Plan): Rows {
    var marked := map p | p in rows :: rows[p] || p in plan.marks;
    var inserted := marked + map p | p in plan.inserts :: true;
    map p | p in inserted && !(p in plan.prunes && inserted[p]) :: inserted[p]
  }

  // ---- the passes as they run ----

  /** Build the plan: one loop over the entries, one over each trashed directory, one over the trashed rows. */
  method Prepare(rows: Rows, s: Setting, entries: seq<Entry>) returns (plan: Plan)
    ensures plan == PlanFor(rows, s, entries)
  {
    plan := Plan([], [], {});
    ghost var seen: seq<Candidate> := [];
    for i := 0 to |entries|
      invariant seen == Candidates(s, entries[..i])
      invariant plan == AdmitAll(rows, seen)
    {
      assert entries[..i + 1][..i] == entries[..i];
      plan := AdmitEntry(rows, s, entries[i], plan, seen);
      seen := seen + CandidatesOf(s, entries[i]);
    }
    assert entries[..|entries|] == entries;
    var prunes: set<Path> := {};
    var left := rows.Keys;
    while left != {}
      invariant left <= rows.Keys
      invariant prunes == set p | p in Prunable(rows, s, entries) && p !in left
      decreases |left|
    {
      var p :| p in left;
      if rows[p] && p !in s.fs.existing && ParentIsDir(s.fs, p) && p !in Originals(entries) {
        prunes := prunes + {p};
      }
      left := left - {p};
    }
    plan := plan.(prunes := prunes);
  }

  method AdmitEntry(rows: Rows, s: Setting, e: Entry, before: Plan, ghost seen: seq<Candidate>) returns (plan: Plan)
    requires before == AdmitAll(rows, seen)
    ensures plan == AdmitAll(rows, seen + CandidatesOf(s, e))
  {
    plan := before;
    assert seen + [] == seen;
    if !UnderRoot(s, e.original) || e.original in s.fs.existing {
      return;
    }
    match e
    case DirEntry(original, files) =>
      plan := AdmitDirectory(rows, s, original, files, plan, seen);
    case FileEntry(original, readable) =>
      if s.supported(original) {
        AdmitOneMore(rows, seen, Candidate(original, readable));
        plan := Admit(rows, plan, Candidate(original, readable));
      }
  }

  /** The walk through one trashed directory. */
  method AdmitDirectory(rows: Rows, s: Setting, original: Path, files: seq<Inner>, before: Plan,
                        ghost seen: seq<Candidate>) returns (plan: Plan)
    requires before == AdmitAll(rows, seen)
    ensures plan == AdmitAll(rows, seen + InnerCandidates(s, original, files))
  {
    plan := before;
    ghost var cs := seen;
    assert files[..0] == [] && seen + [] == seen;
    for j := 0 to |files|
      invariant cs == seen + InnerCandidates(s, original, files[..j]) && plan == AdmitAll(rows, cs)
    {
      var path := original + files[j].relative;
      InnerMore(s, original, files, j);
      if s.supported(path) {
        AdmitOneMore(rows, cs, Candidate(path, files[j].readable));
        plan := Admit(rows, plan, Candidate(path, files[j].readable));
        cs := cs + [Candidate(path, files[j].readable)];
      }
    }
    assert files[..|files|] == files;
  }

  lemma InnerMore(s: Setting, original: Path, files: seq<Inner>, j: nat)
    requires j < |files|
    ensures var path := original + files[j].relative;
            InnerCandidates(s, original, files[..j + 1]) ==
            InnerCandidates(s, original, files[..j])
            + if s.supported(path) then [Candidate(path, files[j].readable)] else []
  {
    assert files[..j + 1][..j] == files[..j];
  }

  lemma AdmitOneMore(rows: Rows, cs: seq<Candidate>, c: Candidate)
    ensures AdmitAll(rows, cs + [c]) == Admit(rows, AdmitAll(rows, cs), c)
  {
    assert (cs + [c])[..|cs|] == cs;
  }

  class Database {
    var rows: Rows

    method MarkTrashed(p: Path)
      modifies this
      ensures rows == map q | q in old(rows) :: old(rows)[q] || q == p
    {
      if p in rows {
        rows := rows[p := true];
      }
    }

    /** An upsert makes the row live again, or adds a live row. */
    method Upsert(p: Path)
      modifies this
      ensures rows == old(rows)[p := false]
    {
      rows := rows[p := false];
    }

    /** Only trashed rows are deleted. */
    method DeletePermanently(p: Path)
      modifies this
      ensures rows == if p in old(rows) && old(rows)[p] then old(rows) - {p} else old(rows)
    {
      if p in rows && rows[p] {
        rows := rows - {p};
      }
    }

    method MarkAll(ps: seq<Path>)
      modifies this
      ensures rows == map q | q in old(rows) :: old(rows)[q] || q in ps
    {
      for i := 0 to |ps|
        invariant rows == map q | q in old(rows) :: old(rows)[q] || q in ps[..i]
      {
        assert ps[..i + 1] == ps[..i] + [ps[i]];
        MarkTrashed(ps[i]);
      }
      assert ps[..|ps|] == ps;
    }

    method UpsertAll(ps: seq<Path>)
      modifies this
      ensures rows == old(rows) + map q | q in ps :: false
    {
      for i := 0 to |ps|
        invariant rows == old(rows) + map q | q in ps[..i] :: false
      {
        assert ps[..i + 1] == ps[..i] + [ps[i]];
        Upsert(ps[i]);
      }
      assert ps[..|ps|] == ps;
    }

    method DeleteAll(ps: set<Path>)
      modifies this
      ensures rows == map q | q in old(rows) && !(q in ps && old(rows)[q]) :: old(rows)[q]
    {
      var left := ps;
      while left != {}
        invariant left <= ps
        invariant rows == map q | q in old(rows) && !(q in ps && q !in left && old(rows)[q]) :: old(rows)[q]
        decreases |left|
      {
        var p :| p in left;
        DeletePermanently(p);
        left := left - {p};
      }
    }

    method CommitReconcile(plan: Plan)
      modifies this
      ensures rows == Commit(old(rows), plan)
    {
      MarkAll(plan.marks);
      UpsertAll(plan.inserts);
      MarkAll(plan.inserts);
      DeleteAll(plan.prunes);
    }
  }

  // ---- convergence ----

  /** What a plan contains, file by file. */
  lemma {:induction false} PlanContents(rows: Rows, cs: seq<Candidate>)
    ensures var plan := AdmitAll(rows, cs);
            && (forall p :: p in plan.marks <==>
                  p in rows && !rows[p] && exists i :: 0 <= i < |cs| && cs[i].path == p)
            && (forall p :: p in plan.inserts <==>
                  p !in rows && exists i :: 0 <= i < |cs| && cs[i] == Candidate(p, true))
    decreases |cs|
  {
    if cs != [] {
      var init, c := cs[..|cs| - 1], cs[|cs| - 1];
      PlanContents(rows, init);
      var before, after := AdmitAll(rows, init), AdmitAll(rows, cs);
      forall p
        ensures p in after.marks <==> p in before.marks || (p == c.path && p in rows && !rows[p])
        ensures p in after.inserts <==> p in before.inserts || (p == c.path && p !in rows && c.readable)
      {
      }
      forall p
        ensures (exists i :: 0 <= i < |cs| && cs[i].path == p) <==>
                (exists i :: 0 <= i < |init| && init[i].path == p) || c.path == p
        ensures (exists i :: 0 <= i < |cs| && cs[i] == Candidate(p, true)) <==>
                (exists i :: 0 <= i < |init| && init[i] == Candidate(p, true)) || c == Candidate(p, true)
      {
        assert cs[|cs| - 1] == c;
        assert forall i :: 0 <= i < |init| ==> cs[i] == init[i];
      }
    }
  }

  /** A candidate's own path is absent, and is either the original of an entry or lies in an absent directory. */
  predicate Absent(s: Setting, entries: seq<Entry>, p: Path) {
    p !in s.fs.existing && (p in Originals(entries) || !ParentIsDir(s.fs, p))
  }

  lemma {:induction false} BelowAbsentIsAbsent(fs: Fs, dir: Path, p: Path)
    requires ParentClosed(fs) && dir !in fs.existing && dir <= p
    ensures p !in fs.existing
    decreases |p|
  {
    if |p| > |dir| {
      BelowAbsentIsAbsent(fs, dir, Parent(p));
    } else {
      assert p == dir;
    }
  }

  lemma {:induction false} InnerIsAbsent(s: Setting, entries: seq<Entry>, original: Path, files: seq<Inner>, i: nat)
    requires ParentClosed(s.fs) && original !in s.fs.existing
    requires forall k :: 0 <= k < |files| ==> files[k].relative != []
    requires i < |InnerCandidates(s, original, files)|
    ensures Absent(s, entries, InnerCandidates(s, original, files)[i].path)
    decreases |files|
  {
    var init := InnerCandidates(s, original, files[..|files| - 1]);
    if i < |init| {
      InnerIsAbsent(s, entries, original, files[..|files| - 1], i);
    } else {
      var rel := files[|files| - 1].relative;
      var p := original + rel;
      assert original <= p;
      BelowAbsentIsAbsent(s.fs, original, p);
      assert Parent(p) == original + rel[..|rel| - 1];
      BelowAbsentIsAbsent(s.fs, original, Parent(p));
    }
  }

  lemma {:induction false} CandidateIsAbsent(s: Setting, entries: seq<Entry>, i: nat, j: nat)
    requires ParentClosed(s.fs) && i < |entries| && WellFormedEntry(entries[i]) && j < |CandidatesOf(s, entries[i])|
    ensures Absent(s, entries, CandidatesOf(s, entries[i])[j].path)
  {
    assert entries[i].original in Originals(entries);
    if entries[i].DirEntry? {
      InnerIsAbsent(s, entries, entries[i].original, entries[i].files, j);
    }
  }

  /** Every candidate belongs to some entry. */
  lemma {:induction false} CandidateHasEntry(s: Setting, entries: seq<Entry>, k: nat) returns (i: nat, j: nat)
    requires k < |Candidates(s, entries)|
    ensures i < |entries| && j < |CandidatesOf(s, entries[i])|
    ensures Candidates(s, entries)[k] == CandidatesOf(s, entries[i])[j]
    decreases |entries|
  {
    var init := entries[..|entries| - 1];
    if k < |Candidates(s, init)| {
      i, j := CandidateHasEntry(s, init, k);
      assert entries[i] == init[i];
    } else {
      i, j := |entries| - 1, k - |Candidates(s, init)|;
    }
  }

  lemma CandidatesAreAbsent(s: Setting, entries: seq<Entry>)
    requires ParentClosed(s.fs) && forall i :: 0 <= i < |entries| ==> WellFormedEntry(entries[i])
    ensures forall k :: 0 <= k < |Candidates(s, entries)| ==> Absent(s, entries, Candidates(s, entries)[k].path)
  {
    forall k | 0 <= k < |Candidates(s, entries)|
      ensures Absent(s, entries, Candidates(s, entries)[k].path)
    {
      var i, j := CandidateHasEntry(s, entries, k);
      CandidateIsAbsent(s, entries, i, j);
    }
  }

  predicate IsCandidate(s: Setting, entries: seq<Entry>, p: Path) {
    exists k :: 0 <= k < |Candidates(s, entries)| && Candidates(s, entries)[k].path == p
  }

  predicate IsReadableCandidate(s: Setting, entries: seq<Entry>, p: Path) {
    exists k :: 0 <= k < |Candidates(s, entries)| && Candidates(s, entries)[k] == Candidate(p, true)
  }

  /** The rows after one pass, path by path. */
  lemma PassEffect(rows: Rows, s: Setting, entries: seq<Entry>, p: Path)
    requires ParentClosed(s.fs) && forall i :: 0 <= i < |entries| ==> WellFormedEntry(entries[i])
    ensures var after := Commit(rows, PlanFor(rows, s, entries));
            if IsCandidate(s, entries, p) && (p in rows || IsReadableCandidate(s, entries, p))
            then p in after && after[p]
            else if p in Prunable(rows, s, entries) then p !in after
            else (p in after <==> p in rows) && (p in rows ==> after[p] == rows[p])
  {
    var cs := Candidates(s, entries);
    PlanContents(rows, cs);
    CandidatesAreAbsent(s, entries);
    if IsCandidate(s, entries, p) {
      assert p !in Prunable(rows, s, entries);
    }
  }

  // ---- which files these are ----

  /** The entry holds a payload that was at `p`: itself, or a file inside a trashed directory. */
  predicate Holds(e: Entry, p: Path, readable: bool) {
    match e
    case FileEntry(original, r) => p == original && r == readable
    case DirEntry(original, files) =>
      exists j :: 0 <= j < |files| && p == original + files[j].relative && files[j].readable == readable
  }

  /** The entry holds a media file of the library that was at `p`, and the entry's own place is empty. */
  predicate Offers(s: Setting, e: Entry, p: Path, readable: bool) {
    && s.supported(p) && (exists root :: root in s.roots && root <= e.original)
    && e.original !in s.fs.existing && Holds(e, p, readable)
  }

  lemma UnderRootIff(s: Setting, p: Path)
    ensures UnderRoot(s, p) <==> exists root :: root in s.roots && root <= p
  {
    if root :| root in s.roots && root <= p {
      var i :| 0 <= i < |s.roots| && s.roots[i] == root;
    }
    if UnderRoot(s, p) {
      var i :| 0 <= i < |s.roots| && s.roots[i] <= p;
      assert s.roots[i] in s.roots;
    }
  }

  predicate InTrash(s: Setting, entries: seq<Entry>, p: Path, readable: bool) {
    exists i :: 0 <= i < |entries| && Offers(s, entries[i], p, readable)
  }

  lemma {:induction false} InnerCandidateIff(s: Setting, original: Path, files: seq<Inner>, p: Path, readable: bool)
    ensures Candidate(p, readable) in InnerCandidates(s, original, files) <==>
            s.supported(p) && Holds(DirEntry(original, files), p, readable)
    decreases |files|
  {
    if files != [] {
      var init, f := files[..|files| - 1], files[|files| - 1];
      InnerCandidateIff(s, original, init, p, readable);
      if j :| 0 <= j < |init| && p == original + init[j].relative && init[j].readable == readable {
        assert files[j] == init[j];
      }
      assert files[|files| - 1] == f;
    }
  }

  lemma CandidateOfIff(s: Setting, e: Entry, p: Path, readable: bool)
    ensures Candidate(p, readable) in CandidatesOf(s, e) <==> Offers(s, e, p, readable)
  {
    UnderRootIff(s, e.original);
    if e.DirEntry? {
      InnerCandidateIff(s, e.original, e.files, p, readable);
    }
  }

  lemma InTrashAppend(s: Setting, entries: seq<Entry>, p: Path, readable: bool)
    requires entries != []
    ensures InTrash(s, entries, p, readable) <==>
            || InTrash(s, entries[..|entries| - 1], p, readable)
            || Offers(s, entries[|entries| - 1], p, readable)
  {
    var init := entries[..|entries| - 1];
    if i :| 0 <= i < |init| && Offers(s, init[i], p, readable) {
      assert Offers(s, entries[i], p, readable);
    }
  }

  /** The files a pass looks at are exactly the media files of the library in the trash whose place is empty. */
  lemma {:induction false} CandidateIff(s: Setting, entries: seq<Entry>, p: Path, readable: bool)
    ensures Candidate(p, readable) in Candidates(s, entries) <==> InTrash(s, entries, p, readable)
    decreases |entries|
  {
    if entries != [] {
      var init, e := entries[..|entries| - 1], entries[|entries| - 1];
      CandidateIff(s, init, p, readable);
      CandidateOfIff(s, e, p, readable);
      InTrashAppend(s, entries, p, readable);
    }
  }

  lemma CandidatesAreInTrash(s: Setting, entries: seq<Entry>, p: Path)
    ensures IsReadableCandidate(s, entries, p) <==> InTrash(s, entries, p, true)
    ensures IsCandidate(s, entries, p) <==> InTrash(s, entries, p, true) || InTrash(s, entries, p, false)
  {
    var cs := Candidates(s, entries);
    CandidateIff(s, entries, p, true);
    CandidateIff(s, entries, p, false);
    if k :| 0 <= k < |cs| && cs[k].path == p {
      assert cs[k] == Candidate(p, true) || cs[k] == Candidate(p, false);
    }
  }

  /**
   One pass converges. Every media file of the library in the trash whose place is empty, also inside a trashed
   directory, has a trashed row afterwards, unless it has no row and cannot be read. Every trashed row whose file
   is gone while its directory exists has a trash entry. Rows of files that are in place are untouched.
   */
  lemma PassConverges(rows: Rows, s: Setting, entries: seq<Entry>)
    requires ParentClosed(s.fs) && forall i :: 0 <= i < |entries| ==> WellFormedEntry(entries[i])
    ensures var after := Commit(rows, PlanFor(rows, s, entries));
            && (forall p :: InTrash(s, entries, p, true) ==> p in after && after[p])
            && (forall p :: InTrash(s, entries, p, false) && p in rows ==> p in after && after[p])
            && (forall p :: p in after && after[p] && p !in s.fs.existing && ParentIsDir(s.fs, p) ==>
                  p in Originals(entries))
            && (forall p :: p in s.fs.existing ==> (p in after <==> p in rows) && (p in rows ==> after[p] == rows[p]))
  {
    var after := Commit(rows, PlanFor(rows, s, entries));
    CandidatesAreAbsent(s, entries);
    forall p
      ensures InTrash(s, entries, p, true) ==> p in after && after[p]
      ensures InTrash(s, entries, p, false) && p in rows ==> p in after && after[p]
      ensures p in after && after[p] && p !in s.fs.existing && ParentIsDir(s.fs, p) ==> p in Originals(entries)
      ensures p in s.fs.existing ==> (p in after <==> p in rows) && (p in rows ==> after[p] == rows[p])
    {
      CandidatesAreInTrash(s, entries, p);
      PassEffect(rows, s, entries, p);
    }
  }

  // ---- what a pruned row leaves behind ----

  /** Some entry still holds the payload that was at `p`. */
  predicate PayloadRemains(entries: seq<Entry>, p: Path) {
    exists i :: 0 <= i < |entries| && (Holds(entries[i], p, true) || Holds(entries[i], p, false))
  }

  /** The payload lies in a trashed directory whose place is taken again. */
  predicate InReturnedDirectory(s: Setting, entries: seq<Entry>, p: Path) {
    exists i :: 0 <= i < |entries| && entries[i].DirEntry? && entries[i].original in s.fs.existing
                && (Holds(entries[i], p, true) || Holds(entries[i], p, false))
  }

  /**
   A row is pruned because its file is taken for deleted from outside. The payload is really gone, exactly unless it
   lies in a trashed directory in whose place something exists again.
   */
  lemma PrunedPayloadRemainsIff(rows: Rows, s: Setting, entries: seq<Entry>, p: Path)
    requires ParentClosed(s.fs) && (forall i :: 0 <= i < |entries| ==> WellFormedEntry(entries[i]))
    requires p in Prunable(rows, s, entries)
    ensures PayloadRemains(entries, p) <==> InReturnedDirectory(s, entries, p)
  {
    if i :| 0 <= i < |entries| && (Holds(entries[i], p, true) || Holds(entries[i], p, false)) {
      assert entries[i].original in Originals(entries);
      DirectoryIsBack(s, entries[i], p);
    }
  }

  lemma DirectoryIsBack(s: Setting, e: Entry, p: Path)
    requires ParentClosed(s.fs) && WellFormedEntry(e) && ParentIsDir(s.fs, p) && p != e.original
    requires Holds(e, p, true) || Holds(e, p, false)
    ensures e.DirEntry? && e.original in s.fs.existing
  {
    var j :| 0 <= j < |e.files| && p == e.original + e.files[j].relative;
    var parent := Parent(p);
    assert parent == e.original + e.files[j].relative[..|e.files[j].relative| - 1];
    assert e.original <= parent;
    PrefixesExist(s.fs, e.original, parent);
  }

  lemma {:induction false} PrefixesExist(fs: Fs, dir: Path, p: Path)
    requires ParentClosed(fs) && p in fs.existing && dir <= p
    ensures dir in fs.existing
    decreases |p|
  {
    if |p| > |dir| {
      PrefixesExist(fs, dir, Parent(p));
    } else {
      assert p == dir;
    }
  }

  /** The case exists: an album was trashed as a directory, and an empty directory of the same name was made. */
  lemma RemainingPayloadIsPruned(album: Name, photo: Name)
    ensures var p := [album, photo];
            var s := Setting(Fs({[], [album]}, {[], [album]}), [[]], _ => true);
            var entries := [DirEntry([album], [Inner([photo], true)])];
            && ParentClosed(s.fs) && PayloadRemains(entries, p)
            && p !in Commit(map[p := true], PlanFor(map[p := true], s, entries))
  {
    var p := [album, photo];
    var s := Setting(Fs({[], [album]}, {[], [album]}), [[]], _ => true);
    var entries := [DirEntry([album], [Inner([photo], true)])];
    assert Parent([album]) == [] && Parent(p) == [album];
    assert ParentClosed(s.fs);
    assert Holds(entries[0], p, true) by {
      assert entries[0].files[0] == Inner([photo], true);
      assert p == entries[0].original + entries[0].files[0].relative;
    }
    assert WellFormedEntry(entries[0]);
    OrphanIsPrunedIffParentExists(map[p := true], s, entries, p);
  }

  /** A second pass over an unchanged file system plans nothing and changes nothing. */
  lemma SecondPassIsIdle(rows: Rows, s: Setting, entries: seq<Entry>)
    requires ParentClosed(s.fs) && forall i :: 0 <= i < |entries| ==> WellFormedEntry(entries[i])
    ensures var after := Commit(rows, PlanFor(rows, s, entries));
            PlanFor(after, s, entries) == Plan([], [], {}) && Commit(after, PlanFor(after, s, entries)) == after
  {
    var after := Commit(rows, PlanFor(rows, s, entries));
    var again := PlanFor(after, s, entries);
    PassConverges(rows, s, entries);
    PlanContents(after, Candidates(s, entries));
    forall p
      ensures p !in again.marks && p !in again.inserts && p !in again.prunes
    {
      PassEffect(rows, s, entries, p);
    }
    NonEmptyHasMember(again.marks);
    NonEmptyHasMember(again.inserts);
  }

  lemma NonEmptyHasMember(ps: seq<Path>)
    ensures ps != [] ==> exists p :: p in ps
  {
    if ps != [] {
      assert ps[0] in ps;
    }
  }

  /** A trashed row without file and entry is pruned by the next pass exactly when its directory exists. */
  lemma OrphanIsPrunedIffParentExists(rows: Rows, s: Setting, entries: seq<Entry>, p: Path)
    requires ParentClosed(s.fs) && forall i :: 0 <= i < |entries| ==> WellFormedEntry(entries[i])
    requires p in rows && rows[p] && p !in s.fs.existing && p !in Originals(entries)
    ensures p !in Commit(rows, PlanFor(rows, s, entries)) <==> ParentIsDir(s.fs, p)
  {
    PassEffect(rows, s, entries, p);
    CandidatesAreAbsent(s, entries);
  }
}
