/** Reducing a list of directories to its outermost ones: for moved trees and for the scan roots. */
module DirectoryCovers {
  import opened Basics

  /** A path component, numbered in component order; the root directory is the smallest. */
  type Component = nat

  const ROOT_DIR: Component := 0

  /** A path; `p <= q` says that `q` starts with `p`. */
  type Path = seq<Component>

  function Elements(paths: seq<Path>): set<Path> {
    set p | p in paths
  }

  predicate IsAbsolute(p: Path) {
    p != [] && p[0] == ROOT_DIR
  }

  /** Some of the roots is the path or one of its ancestors. */
  predicate Under(p: Path, roots: seq<Path>) {
    exists i :: 0 <= i < |roots| && roots[i] <= p
  }

  predicate Outermost(p: Path, all: set<Path>) {
    forall q :: q in all && q <= p ==> q == p
  }

  /** The roots are exactly the members of `all` with no other member above them, each once. */
  ghost predicate IsCover(roots: seq<Path>, all: set<Path>) {
    && NoDuplicates(roots)
    && (forall p :: p in roots <==> p in all && Outermost(p, all))
  }

  // ---- what a cover is for ----

  lemma {:induction false} RootExists(roots: seq<Path>, all: set<Path>, p: Path)
    requires IsCover(roots, all) && p in all
    ensures Under(p, roots)
    decreases |p|
  {
    if p in roots {
      var i :| 0 <= i < |roots| && roots[i] == p;
      assert roots[i] <= p;
    } else {
      var q :| q in all && q <= p && q != p;
      RootExists(roots, all, q);
      var i :| 0 <= i < |roots| && roots[i] <= q;
      assert roots[i] <= p;
    }
  }

  /** Both are above the same path, so one is above the other. */
  lemma PrefixesCompare(a: Path, b: Path, p: Path)
    requires a <= p && b <= p
    ensures a <= b || b <= a
  {
    assert a == p[..|a|] && b == p[..|b|];
  }

  /** Every path lies under exactly one root. */
  ghost predicate PartitionsBy(roots: seq<Path>, all: set<Path>) {
    && NoDuplicates(roots)
    && (forall r :: r in roots ==> r in all)
    && (forall p :: p in all ==> Under(p, roots))
    && (forall p, i, j :: p in all && 0 <= i < |roots| && 0 <= j < |roots| && roots[i] <= p && roots[j] <= p ==> i == j)
  }

  /** A list of members is the cover exactly if each member lies under one and only one of them. */
  lemma CoverIffPartition(roots: seq<Path>, all: set<Path>)
    ensures IsCover(roots, all) <==> PartitionsBy(roots, all)
  {
    if IsCover(roots, all) {
      CoverPartitions(roots, all);
    }
    if PartitionsBy(roots, all) {
      PartitionCovers(roots, all);
    }
  }

  lemma CoverPartitions(roots: seq<Path>, all: set<Path>)
    requires IsCover(roots, all)
    ensures PartitionsBy(roots, all)
  {
    forall p | p in all
      ensures Under(p, roots)
    {
      RootExists(roots, all, p);
    }
    forall p, i, j | p in all && 0 <= i < |roots| && 0 <= j < |roots| && roots[i] <= p && roots[j] <= p
      ensures i == j
    {
      PrefixesCompare(roots[i], roots[j], p);
      assert roots[i] in roots && roots[j] in roots;
    }
  }

  lemma PartitionCovers(roots: seq<Path>, all: set<Path>)
    requires PartitionsBy(roots, all)
    ensures IsCover(roots, all)
  {
    forall p | p in roots
      ensures Outermost(p, all)
    {
      var i :| 0 <= i < |roots| && roots[i] == p;
      forall q | q in all && q <= p
        ensures q == p
      {
        assert Under(q, roots);
        var j :| 0 <= j < |roots| && roots[j] <= q;
        assert roots[j] <= p;
      }
    }
    forall p | p in all && Outermost(p, all)
      ensures p in roots
    {
      assert Under(p, roots);
      var j :| 0 <= j < |roots| && roots[j] <= p;
      assert roots[j] in roots;
    }
  }

  // ---- one more directory ----

  /** A directory below a root changes nothing. */
  lemma CoverKeeps(roots: seq<Path>, all: set<Path>, dir: Path)
    requires IsCover(roots, all) && Under(dir, roots)
    ensures IsCover(roots, all + {dir})
  {
    var i :| 0 <= i < |roots| && roots[i] <= dir;
    var r := roots[i];
    assert r in roots;
    forall p
      ensures p in roots <==> p in all + {dir} && Outermost(p, all + {dir})
    {
      if p in roots && dir <= p {
        assert r <= p;
      }
    }
  }

  lemma AboveMeansUnder(roots: seq<Path>, all: set<Path>, dir: Path)
    requires IsCover(roots, all)
    ensures Under(dir, roots) || forall q :: q in all ==> !(q <= dir)
  {
    if exists q :: q in all && q <= dir {
      var q :| q in all && q <= dir;
      RootExists(roots, all, q);
      var i :| 0 <= i < |roots| && roots[i] <= q;
      assert roots[i] <= dir;
    }
  }

  /** A directory below no root replaces the roots below it. */
  lemma CoverReplaces(roots: seq<Path>, all: set<Path>, dir: Path, left: seq<Path>)
    requires IsCover(roots, all) && !Under(dir, roots)
    requires NoDuplicates(left) && forall p :: p in left <==> p in roots && !(dir <= p)
    ensures IsCover(left + [dir], all + {dir})
  {
    var now, more := left + [dir], all + {dir};
    AboveMeansUnder(roots, all, dir);
    forall p
      ensures p in now <==> p in more && Outermost(p, more)
    {
      assert p in now <==> p in left || p == dir;
    }
  }

  // ---- moved trees ----

  /** Component-wise order: an ancestor comes before what is below it. */
  predicate AtMost(a: Path, b: Path) {
    a == [] || (b != [] && (a[0] < b[0] || (a[0] == b[0] && AtMost(a[1..], b[1..]))))
  }

  lemma {:induction false} AtMostIsTotal(a: Path, b: Path)
    ensures AtMost(a, b) || AtMost(b, a)
    ensures AtMost(a, b) && AtMost(b, a) ==> a == b
    ensures a <= b ==> AtMost(a, b)
    decreases |a|
  {
    if a != [] && b != [] {
      AtMostIsTotal(a[1..], b[1..]);
      assert a == [a[0]] + a[1..] && b == [b[0]] + b[1..];
      if a <= b {
        assert a[1..] == b[1..|a|] == b[1..][..|a| - 1];
      }
    }
  }

  lemma {:induction false} AtMostIsTransitive(a: Path, b: Path, c: Path)
    requires AtMost(a, b) && AtMost(b, c)
    ensures AtMost(a, c)
    decreases |a|
  {
    if a != [] && a[0] == b[0] == c[0] {
      AtMostIsTransitive(a[1..], b[1..], c[1..]);
    }
  }

  ghost predicate Ordered(s: seq<Path>) {
    forall i, j :: 0 <= i < j < |s| ==> AtMost(s[i], s[j])
  }

  method InsertSorted(s: seq<Path>, p: Path) returns (t: seq<Path>)
    requires Ordered(s)
    ensures Ordered(t) && forall q :: q in t <==> q == p || q in s
  {
    var i := |s|;
    while i > 0 && !AtMost(s[i - 1], p)
      invariant 0 <= i <= |s|
      invariant forall j :: i <= j < |s| ==> AtMost(p, s[j])
    {
      AtMostIsTotal(s[i - 1], p);
      i := i - 1;
    }
    forall j | 0 <= j < i
      ensures AtMost(s[j], p)
    {
      if j < i - 1 {
        AtMostIsTransitive(s[j], s[i - 1], p);
      }
    }
    t := s[..i] + [p] + s[i..];
    assert s == s[..i] + s[i..];
  }

  method SortPaths(dirs: seq<Path>) returns (s: seq<Path>)
    ensures Ordered(s) && forall q :: q in s <==> q in dirs
  {
    s := [];
    for i := 0 to |dirs|
      invariant Ordered(s) && forall q :: q in s <==> q in dirs[..i]
    {
      s := InsertSorted(s, dirs[i]);
      assert dirs[..i + 1] == dirs[..i] + [dirs[i]];
    }
    assert dirs[..|dirs|] == dirs;
  }

  /** Drops repeated neighbours. */
  method Dedup(s: seq<Path>) returns (t: seq<Path>)
    requires Ordered(s)
    ensures Ordered(t) && NoDuplicates(t) && forall q :: q in t <==> q in s
  {
    t := [];
    for i := 0 to |s|
      invariant Ordered(t) && NoDuplicates(t) && forall q :: q in t <==> q in s[..i]
      invariant i > 0 ==> t != [] && t[|t| - 1] == s[i - 1]
    {
      assert s[..i + 1] == s[..i] + [s[i]];
      assert forall q :: q in s[..i] ==> AtMost(q, s[i]);
      if t == [] || t[|t| - 1] != s[i] {
        assert s[i] !in t by {
          forall j | 0 <= j < |t|
            ensures t[j] != s[i]
          {
            AtMostIsTotal(t[j], t[|t| - 1]);
            AtMostIsTotal(t[|t| - 1], s[i]);
            assert t[j] in t && t[|t| - 1] in t;
          }
        }
        assert forall j :: 0 <= j < |t| ==> t[j] in t;
        t := t + [s[i]];
      }
    }
    assert s[..|s|] == s;
  }

  /** Sorted and without repetitions, one pass over the directories keeps exactly the outermost ones. */
  method TopmostDirectories(dirs: seq<Path>) returns (kept: seq<Path>)
    ensures IsCover(kept, Elements(dirs))
    ensures Ordered(kept)
  {
    var sorted := SortPaths(dirs);
    var ds := Dedup(sorted);
    kept := [];
    for i := 0 to |ds|
      invariant IsCover(kept, Elements(ds[..i]))
      invariant Ordered(kept) && forall p :: p in kept ==> p in ds[..i]
    {
      var dir := ds[i];
      assert ds[..i + 1] == ds[..i] + [dir];
      ghost var seen := Elements(ds[..i]);
      assert Elements(ds[..i + 1]) == seen + {dir};
      assert forall p :: p in ds[..i] ==> AtMost(p, dir) && p != dir;
      if Under(dir, kept) {
        CoverKeeps(kept, seen, dir);
      } else {
        forall p | p in kept
          ensures !(dir <= p)
        {
          AtMostIsTotal(dir, p);
        }
        CoverReplaces(kept, seen, dir, kept);
        assert forall j :: 0 <= j < |kept| ==> kept[j] in kept;
        kept := kept + [dir];
      }
    }
    assert ds[..|ds|] == ds;
    assert Elements(ds) == Elements(dirs);
  }

  // ---- scan roots ----

  /** The absolute paths of the list, each once. */
  method CleanAbsolutePaths(paths: seq<Path>) returns (result: seq<Path>)
    ensures NoDuplicates(result) && forall p :: p in result <==> p in paths && p != [] && p[0] == ROOT_DIR
  {
    result := [];
    for i := 0 to |paths|
      invariant NoDuplicates(result) && forall p :: p in result <==> p in paths[..i] && IsAbsolute(p)
    {
      assert paths[..i + 1] == paths[..i] + [paths[i]];
      if IsAbsolute(paths[i]) && paths[i] !in result {
        result := result + [paths[i]];
      }
    }
    assert paths[..|paths|] == paths;
  }

  /** An absolute path with no excluded path at or above it. */
  ghost predicate Admissible(p: Path, excluded: seq<Path>) {
    IsAbsolute(p) && forall e :: e in excluded && IsAbsolute(e) ==> !(e <= p)
  }

  /** Keeps the roots that do not start with `dir`, in order. */
  method RetainOutside(roots: seq<Path>, dir: Path) returns (left: seq<Path>)
    requires NoDuplicates(roots)
    ensures NoDuplicates(left) && forall p :: p in left <==> p in roots && !(dir <= p)
  {
    left := [];
    for i := 0 to |roots|
      invariant NoDuplicates(left) && forall p :: p in left <==> p in roots[..i] && !(dir <= p)
    {
      assert roots[..i + 1] == roots[..i] + [roots[i]];
      if !(dir <= roots[i]) {
        assert roots[i] !in roots[..i];
        left := left + [roots[i]];
      }
    }
    assert roots[..|roots|] == roots;
  }

  /** The scan roots are the outermost admissible paths, in whatever order the parts are given. */
  method MediaRootsFromParts(defaults: seq<Path>, custom: seq<Path>, excluded: seq<Path>) returns (roots: seq<Path>)
    ensures IsCover(roots, set p | p in defaults + custom && Admissible(p, excluded))
  {
    var parts := defaults + custom;
    var clean := CleanAbsolutePaths(excluded);
    roots := [];
    for i := 0 to |parts|
      invariant IsCover(roots, set p | p in parts[..i] && Admissible(p, excluded))
    {
      var root := parts[i];
      ghost var seen := set p | p in parts[..i] && Admissible(p, excluded);
      ghost var more := set p | p in parts[..i + 1] && Admissible(p, excluded);
      assert parts[..i + 1] == parts[..i] + [root];
      if !IsAbsolute(root) || Under(root, clean) {
        NotAdmissible(root, clean, excluded);
        assert more == seen;
        continue;
      }
      assert Admissible(root, excluded) by {
        IsAdmissible(root, clean, excluded);
      }
      assert more == seen + {root};
      if Under(root, roots) {
        CoverKeeps(roots, seen, root);
        continue;
      }
      var left := RetainOutside(roots, root);
      CoverReplaces(roots, seen, root, left);
      roots := left + [root];
    }
    assert parts[..|parts|] == parts;
  }

  lemma NotAdmissible(p: Path, clean: seq<Path>, excluded: seq<Path>)
    requires forall e :: e in clean <==> e in excluded && IsAbsolute(e)
    requires !IsAbsolute(p) || Under(p, clean)
    ensures !Admissible(p, excluded)
  {
    if Under(p, clean) {
      var i :| 0 <= i < |clean| && clean[i] <= p;
      assert clean[i] in clean;
    }
  }

  lemma IsAdmissible(p: Path, clean: seq<Path>, excluded: seq<Path>)
    requires forall e :: e in clean <==> e in excluded && IsAbsolute(e)
    requires IsAbsolute(p) && !Under(p, clean)
    ensures Admissible(p, excluded)
  {
    forall e | e in excluded && IsAbsolute(e)
      ensures !(e <= p)
    {
      var i :| 0 <= i < |clean| && clean[i] == e;
    }
  }
}
