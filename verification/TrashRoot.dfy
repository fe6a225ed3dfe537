/** One trash root: moving a file in, and the scanner that lists what is there. */
module TrashRoot {
  import opened Basics
  import opened TrashInfo

  type Path = Bytes
  type Name = Bytes
  type Content = nat

  /**
   `live` are the library's files, `files` and `infos` the two directories of the trash root;
   an info file is keyed by its name without the `.trashinfo` suffix.
   */
  datatype Disk = Disk(live: map<Path, Content>, files: map<Name, Content>, infos: map<Name, Bytes>)

  datatype Entry = Entry(original: Path, name: Name)

  /** Info files that record a path and whose payload exists. */
  predicate IsEntry(d: Disk, n: Name) {
    n in d.infos && n in d.files && RecordedPath(d.infos[n]).Some?
  }

  function OriginalOf(d: Disk, n: Name): Path
    requires IsEntry(d, n)
  {
    Decode(RecordedPath(d.infos[n]).value)
  }

  function Entries(d: Disk): set<Entry> {
    set n | n in d.infos && IsEntry(d, n) :: Entry(OriginalOf(d, n), n)
  }

  // ---- choosing a name ----

  const DOT: byte := 0x2e
  const LAST_SUFFIX := 9999

  function Decimal(n: nat): Bytes {
    if n < 10 then [0x30 + n] else Decimal(n / 10) + [0x30 + n % 10]
  }

  /** The position of the last dot, if it is not the first byte. */
  function DotIndex(s: Name): (r: Option<nat>)
    ensures r.Some? ==> 1 <= r.value < |s|
  {
    if |s| <= 1 then None
    else if s[|s| - 1] == DOT then Some(|s| - 1)
    else DotIndex(s[..|s| - 1])
  }

  /** `stem.n.ext`, or `stem.n` without an extension. */
  function Candidate(basename: Name, n: nat): Name {
    match DotIndex(basename)
    case None => basename + [DOT] + Decimal(n)
    case Some(i) =>
      if i == |basename| - 1 then basename[..i] + [DOT] + Decimal(n)
      else basename[..i] + [DOT] + Decimal(n) + [DOT] + basename[i + 1..]
  }

  /** The number that decimal digits spell. */
  function ValueOf(digits: Bytes): int {
    if digits == [] then 0 else ValueOf(digits[..|digits| - 1]) * 10 + digits[|digits| - 1] as int - 0x30
  }

  lemma {:induction false} DecimalSpells(n: nat)
    ensures ValueOf(Decimal(n)) == n && Decimal(n) != [] && (n > 0 ==> Decimal(n)[0] != 0x30)
    ensures forall b :: b in Decimal(n) ==> 0x30 <= b <= 0x39
    decreases n
  {
    if n >= 10 {
      DecimalSpells(n / 10);
      assert Decimal(n)[..|Decimal(n)| - 1] == Decimal(n / 10);
    } else {
      assert Decimal(n)[..0] == [];
    }
  }

  lemma {:induction false} DotIndexOf(stem: Name, ext: Name)
    requires stem != [] && DOT !in ext
    ensures DotIndex(stem + ([DOT] + ext)) == Some(|stem|)
    decreases |ext|
  {
    var s := stem + ([DOT] + ext);
    if ext != [] {
      var init := ext[..|ext| - 1];
      assert s[|s| - 1] == ext[|ext| - 1] && ext[|ext| - 1] in ext;
      assert s[..|s| - 1] == stem + ([DOT] + init);
      DotIndexOf(stem, init);
    }
  }

  lemma {:induction false} NoDotIndex(s: Name)
    requires s == [] || DOT !in s[1..]
    ensures DotIndex(s) == None
    decreases |s|
  {
    if |s| > 1 {
      assert s[|s| - 1] == s[1..][|s| - 2] && s[1..][|s| - 2] in s[1..];
      assert s[..|s| - 1][1..] == s[1..][..|s| - 2];
      NoDotIndex(s[..|s| - 1]);
    }
  }

  /** A numbered name: the number goes before the extension, or to the end if there is none. */
  lemma CandidateSpells(stem: Name, ext: Name, n: nat)
    ensures stem != [] && DOT !in ext ==>
              Candidate(stem + ([0x2e] + ext), n)
              == stem + [0x2e] + Decimal(n) + (if ext == [] then [] else [0x2e] + ext)
    ensures stem == [] || DOT !in stem[1..] ==> Candidate(stem, n) == stem + [0x2e] + Decimal(n)
  {
    if stem != [] && DOT !in ext {
      DotIndexOf(stem, ext);
      var s := stem + ([DOT] + ext);
      assert s[..|stem|] == stem && s[|stem| + 1..] == ext;
      if ext != [] {
        assert stem + [DOT] + Decimal(n) + [DOT] + ext == stem + [DOT] + Decimal(n) + ([DOT] + ext);
      }
    }
    if stem == [] || DOT !in stem[1..] {
      NoDotIndex(stem);
    }
  }

  /** The search never tries a name twice. */
  lemma CandidatesDiffer(basename: Name, n: nat, m: nat)
    requires Candidate(basename, n) == Candidate(basename, m)
    ensures n == m
  {
    DecimalSpells(n);
    DecimalSpells(m);
    var i := DotIndex(basename);
    var front := if i.None? then basename else basename[..i.value];
    var back := if i.None? || i.value == |basename| - 1 then [] else [DOT] + basename[i.value + 1..];
    assert Candidate(basename, n) == front + [DOT] + Decimal(n) + back;
    assert Candidate(basename, m) == front + [DOT] + Decimal(m) + back;
    var from := |front| + 1;
    assert Decimal(n) == Candidate(basename, n)[from..|Candidate(basename, n)| - |back|];
    assert Decimal(m) == Candidate(basename, m)[from..|Candidate(basename, m)| - |back|];
  }

  predicate Free(d: Disk, n: Name) {
    n !in d.files && n !in d.infos
  }

  /** The first free numbered candidate from `n` on. */
  function FirstFree(d: Disk, basename: Name, n: nat): Option<Name>
    requires n <= LAST_SUFFIX + 1
    decreases LAST_SUFFIX + 1 - n
  {
    if n > LAST_SUFFIX then None
    else if Free(d, Candidate(basename, n)) then Some(Candidate(basename, n))
    else FirstFree(d, basename, n + 1)
  }

  /** When every candidate is taken the time stamp names the file, unchecked. */
  function ChosenName(d: Disk, basename: Name, stamp: nat): Name {
    if Free(d, basename) then basename
    else match FirstFree(d, basename, 0)
      case Some(name) => name
      case None => basename + [DOT] + Decimal(stamp)
  }

  lemma {:induction false} FirstFreeIsFree(d: Disk, basename: Name, n: nat)
    requires n <= LAST_SUFFIX + 1
    ensures FirstFree(d, basename, n).Some? ==> Free(d, FirstFree(d, basename, n).value)
    ensures FirstFree(d, basename, n).None? <==>
            forall k :: n <= k <= LAST_SUFFIX ==> !Free(d, Candidate(basename, k))
    decreases LAST_SUFFIX + 1 - n
  {
    if n <= LAST_SUFFIX && !Free(d, Candidate(basename, n)) {
      FirstFreeIsFree(d, basename, n + 1);
    }
  }

  /** Some name that the search tries is free. */
  predicate HasFreeCandidate(d: Disk, basename: Name) {
    Free(d, basename) || exists k :: 0 <= k <= LAST_SUFFIX && Free(d, Candidate(basename, k))
  }

  lemma ChosenNameIsFree(d: Disk, basename: Name, stamp: nat)
    requires HasFreeCandidate(d, basename)
    ensures var name := ChosenName(d, basename, stamp); name !in d.files && name !in d.infos
  {
    FirstFreeIsFree(d, basename, 0);
  }

  predicate Taken(d: Disk, n: Name) {
    n in d.files || n in d.infos
  }

  /** The search keeps the name itself if it is not taken, and else takes the lowest number that is not. */
  lemma ChosenNameIsFirst(d: Disk, basename: Name, stamp: nat, n: nat)
    ensures !Taken(d, basename) ==> ChosenName(d, basename, stamp) == basename
    ensures Taken(d, basename) && n <= 9999 && !Taken(d, Candidate(basename, n))
            && (forall m: nat :: m < n ==> Taken(d, Candidate(basename, m))) ==>
              ChosenName(d, basename, stamp) == Candidate(basename, n)
    ensures Taken(d, basename) && (forall m: nat :: m <= 9999 ==> Taken(d, Candidate(basename, m))) ==>
              ChosenName(d, basename, stamp) == basename + [0x2e] + Decimal(stamp)
  {
    if Taken(d, basename) && n <= 9999 && !Taken(d, Candidate(basename, n))
       && forall m: nat :: m < n ==> Taken(d, Candidate(basename, m)) {
      FirstFreeFrom(d, basename, n, 0);
    }
    FirstFreeIsFree(d, basename, 0);
  }

  lemma {:induction false} FirstFreeFrom(d: Disk, basename: Name, n: nat, from: nat)
    requires from <= n <= LAST_SUFFIX && Free(d, Candidate(basename, n))
    requires forall m: nat :: m < n ==> !Free(d, Candidate(basename, m))
    ensures FirstFree(d, basename, from) == Some(Candidate(basename, n))
    decreases n - from
  {
    if from < n {
      FirstFreeFrom(d, basename, n, from + 1);
    }
  }

  // ---- moving ----

  /**
   A failed info write may leave part of a file behind, `left`, and the move back is done only if it succeeds itself.
   */
  datatype MoveFault = NoFault | RenameFails | InfoWriteFails(left: Option<Bytes>, back: bool)

  /** Moved in, with its info file. */
  function MovedIn(d: Disk, path: Path, name: Name, date: Bytes): Disk
    requires path in d.live
  {
    Disk(d.live - {path}, d.files[name := d.live[path]], d.infos[name := TrashInfoFor(path, date)])
  }

  /** Moved in and, if possible, back again after the info file could not be written. */
  function MovedBack(d: Disk, path: Path, name: Name, left: Option<Bytes>, back: bool): Disk
    requires path in d.live
  {
    var infos := if left.Some? then d.infos[name := left.value] else d.infos;
    if back then Disk((d.live - {path})[path := d.live[path]], d.files[name := d.live[path]] - {name}, infos)
    else Disk(d.live - {path}, d.files[name := d.live[path]], infos)
  }

  class Root {
    var disk: Disk

    method UniqueTrashName(basename: Name, stamp: nat) returns (name: Name)
      ensures name == ChosenName(disk, basename, stamp)
    {
      if Free(disk, basename) {
        return basename;
      }
      for n := 0 to LAST_SUFFIX + 1
        invariant FirstFree(disk, basename, n) == FirstFree(disk, basename, 0)
      {
        var candidate := Candidate(basename, n);
        if Free(disk, candidate) {
          return candidate;
        }
      }
      name := basename + [DOT] + Decimal(stamp);
    }

    /** Move a file into the trash root; `fault` says which system call fails. */
    method MovePathToTrashRoot(path: Path, basename: Option<Name>, date: Bytes, stamp: nat, fault: MoveFault)
      returns (ok: bool)
      modifies this
      ensures ok <==> path in old(disk).live && basename.Some? && fault.NoFault?
      ensures ok ==> disk == MovedIn(old(disk), path, ChosenName(old(disk), basename.value, stamp), date)
      ensures !ok && path in old(disk).live && basename.Some? && fault.InfoWriteFails? ==>
                disk == MovedBack(old(disk), path, ChosenName(old(disk), basename.value, stamp), fault.left, fault.back)
      ensures !ok && !(path in old(disk).live && basename.Some? && fault.InfoWriteFails?) ==> disk == old(disk)
    {
      if path !in disk.live {
        return false;
      }
      if basename.None? {
        return false;
      }
      var actual := UniqueTrashName(basename.value, stamp);
      if fault.RenameFails? {
        return false;
      }
      var content := disk.live[path];
      disk := disk.(live := disk.live - {path}, files := disk.files[actual := content]);
      if fault.InfoWriteFails? {
        if fault.left.Some? {
          disk := disk.(infos := disk.infos[actual := fault.left.value]);
        }
        if fault.back {
          disk := disk.(live := disk.live[path := content], files := disk.files - {actual});
        }
        return false;
      }
      disk := disk.(infos := disk.infos[actual := TrashInfoFor(path, date)]);
      ok := true;
    }
  }

  // ---- what the scanner sees ----

  lemma InEntries(d: Disk, e: Entry)
    ensures e in Entries(d) <==> IsEntry(d, e.name) && OriginalOf(d, e.name) == e.original
  {
  }

  /** After a move under a free name the scanner finds the exact path, and every earlier entry unchanged. */
  lemma MoveAddsExactlyOneEntry(d: Disk, path: Path, name: Name, date: Bytes)
    requires path in d.live && Free(d, name)
    ensures Entries(MovedIn(d, path, name, date)) == Entries(d) + {Entry(path, name)}
  {
    var d' := MovedIn(d, path, name, date);
    WrittenPathIsReadBack(path, date);
    forall e
      ensures e in Entries(d') <==> e in Entries(d) + {Entry(path, name)}
    {
      InEntries(d', e);
      InEntries(d, e);
    }
  }

  /** Whatever the name, earlier entries survive exactly when the name was not an entry of another path. */
  lemma EarlierEntriesSurviveIff(d: Disk, path: Path, name: Name, date: Bytes)
    requires path in d.live
    ensures Entries(d) <= Entries(MovedIn(d, path, name, date)) <==> (IsEntry(d, name) ==> OriginalOf(d, name) == path)
  {
    var d' := MovedIn(d, path, name, date);
    WrittenPathIsReadBack(path, date);
    forall e
      ensures e in Entries(d') <==> (if e.name == name then e.original == path else e in Entries(d))
    {
      InEntries(d', e);
      InEntries(d, e);
    }
    if IsEntry(d, name) {
      InEntries(d, Entry(OriginalOf(d, name), name));
    }
    forall e | e in Entries(d) && e.name == name
      ensures IsEntry(d, name) && e.original == OriginalOf(d, name)
    {
      InEntries(d, e);
    }
  }

  /** Every entry and every payload of the trash is still there. */
  predicate KeepsAll(d: Disk, d': Disk) {
    Entries(d) <= Entries(d') && forall n :: n in d.files ==> n in d'.files && d'.files[n] == d.files[n]
  }

  /** Writing under this name destroys nothing: no other payload, and no entry of another path. */
  predicate Harmless(d: Disk, path: Path, n: Name)
    requires path in d.live
  {
    (n in d.files ==> d.files[n] == d.live[path]) && (IsEntry(d, n) ==> OriginalOf(d, n) == path)
  }

  /** A move destroys nothing exactly if one of the names it tries is free or its last resort is harmless. */
  lemma MoveKeepsAllIff(d: Disk, path: Path, basename: Name, date: Bytes, stamp: nat)
    requires path in d.live
    ensures KeepsAll(d, MovedIn(d, path, ChosenName(d, basename, stamp), date)) <==>
            HasFreeCandidate(d, basename) || Harmless(d, path, basename + [DOT] + Decimal(stamp))
  {
    var name := ChosenName(d, basename, stamp);
    EarlierEntriesSurviveIff(d, path, name, date);
    FirstFreeIsFree(d, basename, 0);
    if HasFreeCandidate(d, basename) {
      ChosenNameIsFree(d, basename, stamp);
    } else {
      assert name == basename + [DOT] + Decimal(stamp);
    }
  }

  /** All names the search tries. */
  ghost function Tried(basename: Name): set<Name> {
    {basename} + set k | 0 <= k <= LAST_SUFFIX :: Candidate(basename, k)
  }

  /** The failing case exists: with all those names and the last one taken, another payload is overwritten. */
  lemma PayloadIsOverwritten(path: Path, basename: Name, date: Bytes, stamp: nat)
    ensures var last := basename + [DOT] + Decimal(stamp);
            var d := Disk(map[path := 1], map n | n in Tried(basename) + {last} :: 0, map[]);
            && ChosenName(d, basename, stamp) == last && d.files[last] == 0
            && MovedIn(d, path, ChosenName(d, basename, stamp), date).files[last] == 1
            && !KeepsAll(d, MovedIn(d, path, ChosenName(d, basename, stamp), date))
  {
    var last := basename + [DOT] + Decimal(stamp);
    var d := Disk(map[path := 1], map n | n in Tried(basename) + {last} :: 0, map[]);
    forall k | 0 <= k <= LAST_SUFFIX
      ensures !Free(d, Candidate(basename, k))
    {
      assert Candidate(basename, k) in Tried(basename);
    }
    FirstFreeIsFree(d, basename, 0);
  }

  /** A failed info write leaves everything as it was, exactly under this condition. */
  lemma FailedMoveIsUndoneIff(d: Disk, path: Path, name: Name, left: Option<Bytes>, back: bool)
    requires path in d.live
    ensures MovedBack(d, path, name, left, back) == d <==>
            back && name !in d.files && (left.Some? ==> name in d.infos && d.infos[name] == left.value)
  {
    var d' := MovedBack(d, path, name, left, back);
    if back {
      assert d'.live == d.live;
      assert name !in d.files ==> d'.files == d.files;
      assert name !in d'.files;
    } else {
      assert path !in d'.live;
    }
    if left.Some? {
      assert d'.infos == d.infos[name := left.value];
      assert name in d.infos && d.infos[name] == left.value ==> d'.infos == d.infos;
    }
  }

  /** The entry that a torn info file and its payload make. */
  predicate LeavesEntry(d: Disk, name: Name, left: Option<Bytes>, original: Path) {
    var info := if left.Some? then left else if name in d.infos then Some(d.infos[name]) else None;
    info.Some? && RecordedPath(info.value).Some? && Decode(RecordedPath(info.value).value) == original
  }

  /** What is in library and trash after a failed info write, under whatever name. */
  lemma FailedMoveEntries(d: Disk, path: Path, name: Name, left: Option<Bytes>, back: bool, e: Entry)
    requires path in d.live
    ensures var d' := MovedBack(d, path, name, left, back);
            && (back ==> d'.live == d.live && d'.files == d.files - {name})
            && (!back ==> d'.live == d.live - {path} && d'.files == d.files[name := d.live[path]])
            && (e.name != name ==> (e in Entries(d') <==> e in Entries(d)))
            && (e.name == name ==> (e in Entries(d') <==> !back && LeavesEntry(d, name, left, e.original)))
  {
    var d' := MovedBack(d, path, name, left, back);
    InEntries(d', e);
    InEntries(d, e);
    if back {
      assert d'.live == d.live && d'.files == d.files - {name};
    }
  }

  /** Failing under this name destroys nothing. */
  predicate HarmlessFailure(d: Disk, path: Path, n: Name, left: Option<Bytes>, back: bool)
    requires path in d.live
  {
    if back then n !in d.files
    else (n in d.files ==> d.files[n] == d.live[path]) && (IsEntry(d, n) ==> LeavesEntry(d, n, left, OriginalOf(d, n)))
  }

  /** A failed move destroys nothing exactly if one of the names it tries is free or its last resort is harmless. */
  lemma FailedMoveKeepsAllIff(d: Disk, path: Path, basename: Name, stamp: nat, left: Option<Bytes>, back: bool)
    requires path in d.live
    ensures KeepsAll(d, MovedBack(d, path, ChosenName(d, basename, stamp), left, back)) <==>
            HasFreeCandidate(d, basename) || HarmlessFailure(d, path, basename + [DOT] + Decimal(stamp), left, back)
  {
    var name := ChosenName(d, basename, stamp);
    FirstFreeIsFree(d, basename, 0);
    if HasFreeCandidate(d, basename) {
      ChosenNameIsFree(d, basename, stamp);
    } else {
      assert name == basename + [DOT] + Decimal(stamp);
    }
    FailureIsHarmlessIff(d, path, name, left, back);
  }

  lemma FailureIsHarmlessIff(d: Disk, path: Path, name: Name, left: Option<Bytes>, back: bool)
    requires path in d.live
    ensures KeepsAll(d, MovedBack(d, path, name, left, back)) <==> HarmlessFailure(d, path, name, left, back)
  {
    var d' := MovedBack(d, path, name, left, back);
    forall e: Entry
      ensures e.name != name ==> (e in Entries(d') <==> e in Entries(d))
      ensures e.name == name ==> (e in Entries(d') <==> !back && LeavesEntry(d, name, left, e.original))
      ensures e in Entries(d) <==> IsEntry(d, e.name) && OriginalOf(d, e.name) == e.original
    {
      FailedMoveEntries(d, path, name, left, back, e);
      InEntries(d, e);
    }
    if IsEntry(d, name) {
      assert Entry(OriginalOf(d, name), name) in Entries(d);
    }
    FailedMoveEntries(d, path, name, left, back, Entry([], name));
  }

  /** The failing case exists: under a taken name, the move back removes the payload that was overwritten. */
  lemma PayloadIsLost(path: Path, basename: Name, stamp: nat)
    ensures var last := basename + [DOT] + Decimal(stamp);
            var d := Disk(map[path := 1], map n | n in Tried(basename) + {last} :: 0, map[]);
            last in d.files && last !in MovedBack(d, path, ChosenName(d, basename, stamp), None, true).files
  {
    PayloadIsOverwritten(path, basename, [], stamp);
  }
}
