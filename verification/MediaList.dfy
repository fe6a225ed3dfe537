/** The capped, sorted list behind the photo grids, and the paths that change it. */
module MediaList {
  import opened Basics
  import opened MediaOrder

  // ---- removal ----

  /** The elements whose uri is not in `uris`, in order. */
  function Without(s: seq<MediaItem>, uris: set<string>): seq<MediaItem> {
    if s == [] then [] else (if s[0].uri in uris then [] else [s[0]]) + Without(s[1..], uris)
  }

  lemma {:induction false} WithoutAppend(a: seq<MediaItem>, b: seq<MediaItem>, uris: set<string>)
    ensures Without(a + b, uris) == Without(a, uris) + Without(b, uris)
    decreases |a|
  {
    if a == [] {
      assert a + b == b;
    } else {
      WithoutAppend(a[1..], b, uris);
      assert (a + b)[1..] == a[1..] + b;
    }
  }

  lemma {:induction false} WithoutAll(s: seq<MediaItem>, uris: set<string>)
    requires forall x :: x in s ==> x.uri in uris
    ensures Without(s, uris) == []
    decreases |s|
  {
    if s != [] {
      assert s[0] in s;
      WithoutAll(s[1..], uris);
    }
  }

  lemma {:induction false} WithoutNone(s: seq<MediaItem>, uris: set<string>)
    requires forall x :: x in s ==> x.uri !in uris
    ensures Without(s, uris) == s
    decreases |s|
  {
    if s != [] {
      assert s[0] in s;
      WithoutNone(s[1..], uris);
    }
  }

  datatype Range = Range(start: nat, len: nat)

  predicate AllHit(s: seq<MediaItem>, lo: nat, hi: nat, uris: set<string>)
    requires lo <= hi <= |s|
  {
    forall i :: lo <= i < hi ==> s[i].uri in uris
  }

  predicate NoneHit(s: seq<MediaItem>, lo: nat, hi: nat, uris: set<string>)
    requires lo <= hi <= |s|
  {
    forall i :: lo <= i < hi ==> s[i].uri !in uris
  }

  /** Where the part covered by the first `n` ranges ends. */
  function EndOf(ranges: seq<Range>): nat {
    if ranges == [] then 0 else ranges[|ranges| - 1].start + ranges[|ranges| - 1].len
  }

  /** The ranges are in order, hold only hits, and hold every hit before the end of the last one. */
  predicate Covers(ranges: seq<Range>, s: seq<MediaItem>, uris: set<string>)
    decreases |ranges|
  {
    ranges == [] ||
    var init, r := ranges[..|ranges| - 1], ranges[|ranges| - 1];
    && EndOf(init) <= r.start && r.start + r.len <= |s|
    && Covers(init, s, uris)
    && NoneHit(s, EndOf(init), r.start, uris)
    && AllHit(s, r.start, r.start + r.len, uris)
  }

  /** Splicing out one range extends the filtered part down to the end of the range before it. */
  lemma SpliceStep(s: seq<MediaItem>, uris: set<string>, prev: nat, r: Range, from: nat)
    requires prev <= r.start && r.start + r.len <= from <= |s|
    requires NoneHit(s, prev, r.start, uris) && AllHit(s, r.start, r.start + r.len, uris)
    requires NoneHit(s, r.start + r.len, from, uris)
    ensures var spliced := s[..from] + Without(s[from..], uris);
            && r.start + r.len <= |spliced|
            && spliced[..r.start] + [] + spliced[r.start + r.len..] == s[..r.start] + Without(s[r.start..], uris)
  {
    var end := r.start + r.len;
    var rest := Without(s[from..], uris);
    SpliceParts(s, r.start, end, from, rest);
    WithoutParts(s[r.start..end], s[end..from], s[from..], uris);
  }

  /** The first `n` ranges cover the hits below `done`. */
  predicate StillCovers(ranges: seq<Range>, n: nat, s: seq<MediaItem>, done: nat, uris: set<string>) {
    && n <= |ranges| && Covers(ranges[..n], s, uris)
    && EndOf(ranges[..n]) <= done <= |s| && NoneHit(s, EndOf(ranges[..n]), done, uris)
  }

  lemma RangeStep(ranges: seq<Range>, n: nat, s: seq<MediaItem>, done: nat, uris: set<string>)
    requires n < |ranges| && StillCovers(ranges, n + 1, s, done, uris)
    ensures var r := ranges[n];
            && StillCovers(ranges, n, s, r.start, uris)
            && var spliced := s[..done] + Without(s[done..], uris);
            && r.start + r.len <= |spliced|
            && spliced[..r.start] + [] + spliced[r.start + r.len..] == s[..r.start] + Without(s[r.start..], uris)
  {
    assert ranges[..n + 1][..n] == ranges[..n] && ranges[..n + 1][n] == ranges[n];
    SpliceStep(s, uris, EndOf(ranges[..n]), ranges[n], done);
  }

  lemma NothingLeft(s: seq<MediaItem>, done: nat, uris: set<string>)
    requires done <= |s| && NoneHit(s, 0, done, uris)
    ensures s[..done] + Without(s[done..], uris) == Without(s, uris)
  {
    WithoutAppend(s[..done], s[done..], uris);
    WithoutNone(s[..done], uris);
    assert s == s[..done] + s[done..];
  }

  lemma SpliceParts(s: seq<MediaItem>, start: nat, end: nat, from: nat, rest: seq<MediaItem>)
    requires start <= end <= from <= |s|
    ensures var spliced := s[..from] + rest;
            spliced[..start] + [] + spliced[end..] == s[..start] + (s[end..from] + rest)
    ensures s[start..] == s[start..end] + (s[end..from] + s[from..])
  {
    var spliced := s[..from] + rest;
    assert spliced[..start] == s[..start] && spliced[end..] == s[end..from] + rest;
  }

  lemma WithoutParts(hit: seq<MediaItem>, kept: seq<MediaItem>, rest: seq<MediaItem>, uris: set<string>)
    requires forall x :: x in hit ==> x.uri in uris
    requires forall x :: x in kept ==> x.uri !in uris
    ensures Without(hit + (kept + rest), uris) == kept + Without(rest, uris)
  {
    WithoutAppend(hit, kept + rest, uris);
    WithoutAppend(kept, rest, uris);
    WithoutAll(hit, uris);
    WithoutNone(kept, uris);
    assert [] + (kept + Without(rest, uris)) == kept + Without(rest, uris);
  }

  // ---- insertion under the cap ----

  predicate Matches(e: MediaItem, x: MediaItem) {
    e.uri == x.uri || e.id == x.id
  }

  predicate MatchesAny(e: MediaItem, batch: seq<MediaItem>) {
    exists i :: 0 <= i < |batch| && Matches(e, batch[i])
  }

  /** The list's rows that no batch item replaces, together with the batch. */
  function OverrideUnion(s: seq<MediaItem>, batch: seq<MediaItem>): set<MediaItem> {
    (set e | e in s && !MatchesAny(e, batch)) + Elements(batch)
  }

  predicate DistinctBatch(batch: seq<MediaItem>) {
    forall i, j :: 0 <= i < j < |batch| ==> !Matches(batch[i], batch[j])
  }

  /** Sorted, within the cap, and no two elements share an id or a uri. */
  predicate WellKept(s: seq<MediaItem>, cap: nat) {
    Sorted(s) && |s| <= cap && DistinctBatch(s)
  }

  function CapInsert(s: seq<MediaItem>, x: MediaItem, cap: nat): seq<MediaItem> {
    var t := Insert(s, x);
    if |t| > cap then t[..cap] else t
  }

  /** Put `x` at `p`: skipped past the cap, and the last element goes on overflow. */
  function Placed(s: seq<MediaItem>, x: MediaItem, p: nat, cap: nat): seq<MediaItem>
    requires p <= |s|
  {
    if p >= cap then s
    else
      var t := s[..p] + [x] + s[p..];
      if |t| > cap then t[..|t| - 1] else t
  }

  /** The first position whose element `x` precedes. */
  function InsertPoint(s: seq<MediaItem>, x: MediaItem): (p: nat)
    ensures p <= |s|
  {
    if s == [] || Before(x, s[0]) then 0 else 1 + InsertPoint(s[1..], x)
  }

  /** Items placed one after the other, each at its insertion point. */
  function PlacedAll(s: seq<MediaItem>, incoming: seq<MediaItem>, cap: nat): seq<MediaItem> {
    if incoming == [] then s
    else
      var t := PlacedAll(s, incoming[..|incoming| - 1], cap);
      Placed(t, incoming[|incoming| - 1], InsertPoint(t, incoming[|incoming| - 1]), cap)
  }

  lemma {:induction false} InsertPointInserts(s: seq<MediaItem>, x: MediaItem)
    ensures var p := InsertPoint(s, x); Insert(s, x) == s[..p] + [x] + s[p..]
    decreases |s|
  {
    if s != [] && !Before(x, s[0]) {
      InsertPointInserts(s[1..], x);
      var p := InsertPoint(s[1..], x);
      assert s[..p + 1] == [s[0]] + s[1..][..p] && s[p + 1..] == s[1..][p..];
    }
  }

  /** A list within the cap is cut by at most one element. */
  lemma PlacedIsCapInsert(s: seq<MediaItem>, x: MediaItem, p: nat, cap: nat)
    requires p <= |s| <= cap && Insert(s, x) == s[..p] + [x] + s[p..]
    ensures Placed(s, x, p, cap) == CapInsert(s, x, cap)
  {
    if p >= cap {
      assert s[..p] == s;
    }
  }

  /** Inserting into the first `cap` rows and cutting gives the first `cap` rows with the new one. */
  lemma TopInsert(s: seq<MediaItem>, rows: set<MediaItem>, x: MediaItem, cap: nat)
    requires IsTop(s, rows, cap) && forall y :: y in rows ==> y.id != x.id
    ensures IsTop(CapInsert(s, x, cap), rows + {x}, cap)
  {
    var t := Insert(s, x);
    assert forall y :: y in s ==> y in Elements(s);
    InsertIsSorted(s, x);
    InsertAddsOne(s, x);
    assert forall y :: y in t <==> y in Elements(t);
    SortedHasNoRepeats(s);
    assert |rows + {x}| == |rows| + 1;
    if |rows| < cap {
      SubsetOfSameSize(Elements(s), rows);
    } else {
      TopCut(s, t, rows, x, cap);
    }
  }

  lemma TopCut(s: seq<MediaItem>, t: seq<MediaItem>, rows: set<MediaItem>, x: MediaItem, cap: nat)
    requires IsTop(s, rows, cap) && |s| == cap && x !in rows
    requires Sorted(t) && |t| == cap + 1 && forall y :: y in t <==> y in s || y == x
    ensures Sorted(t[..cap]) && Elements(t[..cap]) <= rows + {x}
    ensures forall z, y :: z in t[..cap] && y in rows + {x} && y !in t[..cap] ==> Before(z, y)
  {
    var kept, last := t[..cap], t[cap];
    assert t == kept + [last];
    forall z | z in kept
      ensures z in t && Before(z, last)
    {
      var i :| 0 <= i < |kept| && kept[i] == z;
      assert t[i] == z;
    }
    assert forall y :: y in t ==> y in kept || y == last;
    assert forall y :: y in s ==> y in Elements(s);
    assert last in t;
    forall z, y | z in kept && y in rows + {x} && y !in kept
      ensures Before(z, y)
    {
      if y != last {
        assert y in rows && y !in s;
        if z == x {
          assert last in s && Before(last, y);
        }
      }
    }
  }

  lemma {:induction false} InsertAt(s: seq<MediaItem>, x: MediaItem, p: nat)
    requires p <= |s| && (forall i :: 0 <= i < p ==> !Before(x, s[i])) && (p < |s| ==> Before(x, s[p]))
    ensures Insert(s, x) == s[..p] + [x] + s[p..]
    decreases p
  {
    if p > 0 {
      InsertAt(s[1..], x, p - 1);
      assert s[..p] == [s[0]] + s[1..][..p - 1] && s[p..] == s[1..][p - 1..];
    }
  }

  lemma AbsentStep(s: seq<MediaItem>, batch: seq<MediaItem>, n: nat)
    requires n < |batch| && DistinctBatch(batch) && forall e :: e in s ==> !MatchesAny(e, batch)
    ensures Elements(s) + Elements(batch[..n + 1]) == Elements(s) + Elements(batch[..n]) + {batch[n]}
    ensures forall y :: y in Elements(s) + Elements(batch[..n]) ==> y.id != batch[n].id
  {
    assert batch[..n + 1] == batch[..n] + [batch[n]];
    forall y | y in Elements(s) + Elements(batch[..n])
      ensures y.id != batch[n].id
    {
      assert y in s ==> !Matches(y, batch[n]);
    }
  }

  lemma WholeListIsTop(s: seq<MediaItem>, cap: nat)
    requires Sorted(s) && |s| <= cap
    ensures IsTop(s, Elements(s), cap)
  {
    SortedHasNoRepeats(s);
  }

  lemma SameMatches(e: MediaItem, a: seq<MediaItem>, b: seq<MediaItem>)
    requires Elements(a) == Elements(b)
    ensures MatchesAny(e, a) <==> MatchesAny(e, b)
  {
    if i :| 0 <= i < |a| && Matches(e, a[i]) {
      assert a[i] in Elements(b);
    }
    if i :| 0 <= i < |b| && Matches(e, b[i]) {
      assert b[i] in Elements(a);
    }
  }

  /** The batch in list order. */
  function SortBatch(batch: seq<MediaItem>): seq<MediaItem> {
    if batch == [] then [] else Insert(SortBatch(batch[..|batch| - 1]), batch[|batch| - 1])
  }

  lemma {:induction false} SortBatchKeepsItems(batch: seq<MediaItem>)
    requires DistinctBatch(batch)
    ensures Sorted(SortBatch(batch)) && Elements(SortBatch(batch)) == Elements(batch) && DistinctBatch(SortBatch(batch))
    decreases |batch|
  {
    if batch != [] {
      var init, x := batch[..|batch| - 1], batch[|batch| - 1];
      SortBatchKeepsItems(init);
      assert batch == init + [x];
      forall y | y in SortBatch(init)
        ensures !Matches(y, x)
      {
        assert y in Elements(init);
      }
      InsertIsSorted(SortBatch(init), x);
      InsertAddsOne(SortBatch(init), x);
      SortedDistinct(SortBatch(batch), batch);
    }
  }

  /** Distinctness depends only on the set of elements once the list is sorted. */
  lemma SortedDistinct(s: seq<MediaItem>, batch: seq<MediaItem>)
    requires Sorted(s) && Elements(s) == Elements(batch) && DistinctBatch(batch)
    ensures DistinctBatch(s)
  {
    forall i, j | 0 <= i < j < |s|
      ensures !Matches(s[i], s[j])
    {
      assert s[i] in Elements(batch) && s[j] in Elements(batch) && Before(s[i], s[j]);
      var a :| 0 <= a < |batch| && batch[a] == s[i];
      var b :| 0 <= b < |batch| && batch[b] == s[j];
      assert a != b;
    }
  }

  // ---- targeted upserts ----

  /** The list without its first element that matches `x`. */
  function RemoveFirst(s: seq<MediaItem>, x: MediaItem): seq<MediaItem> {
    if s == [] then [] else if Matches(s[0], x) then s[1..] else [s[0]] + RemoveFirst(s[1..], x)
  }

  function Targeted(s: seq<MediaItem>, x: MediaItem, cap: nat): seq<MediaItem> {
    CapInsert(RemoveFirst(s, x), x, cap)
  }

  function TargetedAll(s: seq<MediaItem>, incoming: seq<MediaItem>, cap: nat): seq<MediaItem> {
    if incoming == [] then s
    else Targeted(TargetedAll(s, incoming[..|incoming| - 1], cap), incoming[|incoming| - 1], cap)
  }

  function FirstMatchAt(s: seq<MediaItem>, x: MediaItem): (p: nat)
    ensures p <= |s| && (p < |s| ==> Matches(s[p], x)) && |RemoveFirst(s, x)| == if p < |s| then |s| - 1 else |s|
  {
    if s == [] || Matches(s[0], x) then 0 else 1 + FirstMatchAt(s[1..], x)
  }

  predicate SameKey(a: MediaItem, b: MediaItem) {
    a.time == b.time && a.id == b.id
  }

  /** One item of the targeted path on any list: an element whose sort key is unchanged is replaced in place. */
  function Upserted(s: seq<MediaItem>, x: MediaItem, cap: nat): seq<MediaItem> {
    var p, t := FirstMatchAt(s, x), RemoveFirst(s, x);
    Placed(t, x, if p < |s| && SameKey(s[p], x) then p else InsertPoint(t, x), cap)
  }

  function UpsertedAll(s: seq<MediaItem>, incoming: seq<MediaItem>, cap: nat): seq<MediaItem> {
    if incoming == [] then s
    else Upserted(UpsertedAll(s, incoming[..|incoming| - 1], cap), incoming[|incoming| - 1], cap)
  }

  predicate AtMostOneMatch(s: seq<MediaItem>, x: MediaItem) {
    forall a, b :: a in s && b in s && Matches(a, x) && Matches(b, x) ==> a == b
  }

  lemma CutBehindFirst(s: seq<MediaItem>, p: nat)
    requires 0 < p <= |s|
    ensures [s[0]] + s[1..] == s
    ensures p < |s| ==> [s[0]] + (s[1..][..p - 1] + s[1..][p..]) == s[..p] + s[p + 1..]
  {
    if p < |s| {
      assert s[..p] == [s[0]] + s[1..][..p - 1] && s[p + 1..] == s[1..][p..];
    }
  }

  lemma {:induction false} RemoveFirstAt(s: seq<MediaItem>, x: MediaItem, p: nat)
    requires p <= |s| && (forall i :: 0 <= i < p ==> !Matches(s[i], x)) && (p < |s| ==> Matches(s[p], x))
    ensures RemoveFirst(s, x) == if p < |s| then s[..p] + s[p + 1..] else s
    decreases p
  {
    if p > 0 {
      RemoveFirstAt(s[1..], x, p - 1);
      CutBehindFirst(s, p);
    }
  }

  lemma FirstMatch(s: seq<MediaItem>, x: MediaItem) returns (p: nat)
    ensures p <= |s| && (forall i :: 0 <= i < p ==> !Matches(s[i], x)) && (p < |s| ==> Matches(s[p], x))
    ensures RemoveFirst(s, x) == if p < |s| then s[..p] + s[p + 1..] else s
  {
    p := 0;
    while p < |s| && !Matches(s[p], x)
      invariant p <= |s| && forall i :: 0 <= i < p ==> !Matches(s[i], x)
    {
      p := p + 1;
    }
    RemoveFirstAt(s, x, p);
  }

  lemma RemoveFirstKeepsWell(s: seq<MediaItem>, x: MediaItem, cap: nat)
    requires WellKept(s, cap)
    ensures WellKept(RemoveFirst(s, x), cap)
  {
    var p := FirstMatch(s, x);
    if p < |s| {
      CutKeepsWell(s, p, cap);
    }
  }

  lemma CutKeepsWell(s: seq<MediaItem>, p: nat, cap: nat)
    requires WellKept(s, cap) && p < |s|
    ensures WellKept(s[..p] + s[p + 1..], cap)
  {
    var t := s[..p] + s[p + 1..];
    assert forall i :: 0 <= i < |t| ==> t[i] == s[if i < p then i else i + 1];
  }

  /** With one match at most, exactly the matching element goes. */
  lemma {:induction false} RemoveFirstIsExact(s: seq<MediaItem>, x: MediaItem, e: MediaItem)
    requires DistinctBatch(s) && AtMostOneMatch(s, x)
    ensures e in RemoveFirst(s, x) <==> e in s && !Matches(e, x)
    decreases |s|
  {
    if s != [] {
      assert e in s <==> e == s[0] || e in s[1..];
      assert Matches(s[0], s[0]);
      assert s[0] in s && forall y :: y in s[1..] ==> y in s && !Matches(s[0], y);
      if !Matches(s[0], x) {
        RemoveFirstIsExact(s[1..], x, e);
      }
    }
  }

  lemma TargetedKeepsWell(s: seq<MediaItem>, x: MediaItem, cap: nat)
    requires WellKept(s, cap) && AtMostOneMatch(s, x)
    ensures WellKept(Targeted(s, x, cap), cap)
    ensures IsTop(Targeted(s, x, cap), (set e | e in s && !Matches(e, x)) + {x}, cap)
  {
    var t := RemoveFirst(s, x);
    RemoveFirstKeepsWell(s, x, cap);
    forall e
      ensures e in t <==> e in s && !Matches(e, x)
    {
      RemoveFirstIsExact(s, x, e);
    }
    WholeListIsTop(t, cap);
    assert Elements(t) == set e | e in s && !Matches(e, x);
    TopInsert(t, Elements(t), x, cap);
    InsertAddsOne(t, x);
    var r := Targeted(s, x, cap);
    forall i, j | 0 <= i < j < |r|
      ensures !Matches(r[i], r[j])
    {
      assert r[i] in Elements(r) && r[j] in Elements(r) && Before(r[i], r[j]);
      NoMatchAmong(t, x, r[i], r[j]);
    }
  }

  lemma NoMatchAmong(t: seq<MediaItem>, x: MediaItem, a: MediaItem, b: MediaItem)
    requires DistinctBatch(t) && (forall e :: e in t ==> !Matches(e, x))
    requires a in Elements(t) + {x} && b in Elements(t) + {x} && a != b
    ensures !Matches(a, b)
  {
    if a in t && b in t {
      var i :| 0 <= i < |t| && t[i] == a;
      var j :| 0 <= j < |t| && t[j] == b;
      assert i != j;
    }
  }

  lemma UnionWithOne(s: seq<MediaItem>, x: MediaItem)
    ensures OverrideUnion(s, [x]) == (set e | e in s && !Matches(e, x)) + {x}
  {
    forall e
      ensures MatchesAny(e, [x]) <==> Matches(e, x)
    {
      assert Matches(e, x) ==> Matches(e, [x][0]);
    }
  }

  /** With a second match, that element survives the upsert. */
  lemma SecondMatchSurvives(s: seq<MediaItem>, x: MediaItem, cap: nat) returns (e: MediaItem)
    requires WellKept(s, cap) && !AtMostOneMatch(s, x)
    ensures e in s && Matches(e, x) && e != x && e in Targeted(s, x, cap)
  {
    var p := FirstMatch(s, x);
    var a, b :| a in s && b in s && Matches(a, x) && Matches(b, x) && a != b;
    assert p < |s| by {
      var i :| 0 <= i < |s| && s[i] == a;
    }
    e := if a == s[p] then b else a;
    var j :| 0 <= j < |s| && s[j] == e;
    assert j > p;
    var t := RemoveFirst(s, x);
    assert t[j - 1] == e;
    InsertAddsOne(t, x);
    assert e in Elements(Insert(t, x));
    assert !Matches(s[p], s[j]);
  }

  /** One upsert is the specified merge exactly when the item matches at most one element. */
  lemma TargetedIsMergeIffOneMatch(s: seq<MediaItem>, x: MediaItem, cap: nat)
    requires WellKept(s, cap)
    ensures IsTop(Targeted(s, x, cap), OverrideUnion(s, [x]), cap) <==> AtMostOneMatch(s, x)
  {
    UnionWithOne(s, x);
    if AtMostOneMatch(s, x) {
      TargetedKeepsWell(s, x, cap);
    } else {
      var e := SecondMatchSurvives(s, x, cap);
      assert e in Elements(Targeted(s, x, cap)) && e !in OverrideUnion(s, [x]);
    }
  }

  /** No batch item matches two list elements, no list element matches two batch items. */
  predicate Consistent(s: seq<MediaItem>, batch: seq<MediaItem>) {
    && DistinctBatch(batch)
    && (forall n :: 0 <= n < |batch| ==> AtMostOneMatch(s, batch[n]))
  }

  /** What the targeted path keeps after every item, cap or no cap. */
  lemma {:induction false} TargetedAllKeepsWell(s: seq<MediaItem>, incoming: seq<MediaItem>, cap: nat)
    requires WellKept(s, cap) && Consistent(s, incoming)
    ensures WellKept(TargetedAll(s, incoming, cap), cap)
    ensures Elements(TargetedAll(s, incoming, cap)) <= OverrideUnion(s, incoming)
    decreases |incoming|
  {
    if incoming == [] {
      assert OverrideUnion(s, incoming) == Elements(s);
    } else {
      var init, x := incoming[..|incoming| - 1], incoming[|incoming| - 1];
      assert incoming == init + [x];
      TargetedAllKeepsWell(s, init, cap);
      var t := TargetedAll(s, init, cap);
      StillOneMatch(s, init, x, t);
      TargetedKeepsWell(t, x, cap);
      UnionStep(s, init, x);
    }
  }

  lemma StillOneMatch(s: seq<MediaItem>, init: seq<MediaItem>, x: MediaItem, t: seq<MediaItem>)
    requires Consistent(s, init + [x]) && Elements(t) <= OverrideUnion(s, init)
    ensures AtMostOneMatch(t, x)
  {
    assert (init + [x])[|init|] == x;
    forall a, b | a in t && b in t && Matches(a, x) && Matches(b, x)
      ensures a == b
    {
      assert a in Elements(t) && b in Elements(t);
      BatchDoesNotMatch(init, x);
    }
  }

  lemma BatchDoesNotMatch(init: seq<MediaItem>, x: MediaItem)
    requires DistinctBatch(init + [x])
    ensures forall e :: e in init ==> !Matches(e, x)
  {
    var batch := init + [x];
    forall e | e in init
      ensures !Matches(e, x)
    {
      var k :| 0 <= k < |init| && init[k] == e;
      assert batch[k] == e && batch[|init|] == x;
    }
  }

  lemma UnionStep(s: seq<MediaItem>, init: seq<MediaItem>, x: MediaItem)
    requires DistinctBatch(init + [x])
    ensures OverrideUnion(s, init + [x]) == (set e | e in OverrideUnion(s, init) && !Matches(e, x)) + {x}
  {
    forall e
      ensures MatchesAny(e, init + [x]) <==> MatchesAny(e, init) || Matches(e, x)
    {
      MatchesAppend(e, init, x);
    }
    BatchDoesNotMatch(init, x);
    assert Elements(init + [x]) == Elements(init) + {x};
  }

  lemma MatchesAppend(e: MediaItem, init: seq<MediaItem>, x: MediaItem)
    ensures MatchesAny(e, init + [x]) <==> MatchesAny(e, init) || Matches(e, x)
  {
    var batch := init + [x];
    if i :| 0 <= i < |init| && Matches(e, init[i]) {
      assert Matches(e, batch[i]);
    }
    if Matches(e, x) {
      assert Matches(e, batch[|init|]);
    }
  }

  /** A merged batch never makes the union smaller. */
  lemma UnionGrows(s: seq<MediaItem>, init: seq<MediaItem>, x: MediaItem)
    requires Consistent(s, init + [x])
    ensures |OverrideUnion(s, init)| <= |OverrideUnion(s, init + [x])|
  {
    UnionStep(s, init, x);
    BatchDoesNotMatch(init, x);
    assert AtMostOneMatch(s, x) by {
      assert (init + [x])[|init|] == x;
    }
    ReplacingKeepsSize(OverrideUnion(s, init), x);
  }

  /** Replacing at most one element by another does not make a set smaller. */
  lemma ReplacingKeepsSize(u: set<MediaItem>, x: MediaItem)
    requires forall a, b :: a in u && b in u && Matches(a, x) && Matches(b, x) ==> a == b
    ensures |u| <= |(set e | e in u && !Matches(e, x)) + {x}|
  {
    var kept := set e | e in u && !Matches(e, x);
    assert x !in kept by { assert Matches(x, x); }
    if m :| m in u && Matches(m, x) {
      assert kept == u - {m};
    } else {
      assert kept == u;
    }
  }

  lemma UncutTopHasAll(t: seq<MediaItem>, rows: set<MediaItem>, cap: nat)
    requires IsTop(t, rows, cap) && |rows| <= cap
    ensures Elements(t) == rows
  {
    SortedHasNoRepeats(t);
    SubsetOfSameSize(Elements(t), rows);
  }

  lemma TargetedOnWhole(t: seq<MediaItem>, rows: set<MediaItem>, x: MediaItem, cap: nat)
    requires WellKept(t, cap) && AtMostOneMatch(t, x) && Elements(t) == rows
    ensures IsTop(Targeted(t, x, cap), (set e | e in rows && !Matches(e, x)) + {x}, cap)
  {
    TargetedKeepsWell(t, x, cap);
    assert (set e | e in t && !Matches(e, x)) == set e | e in rows && !Matches(e, x);
  }

  /** A batch that fits under the cap is merged as specified by the targeted path. */
  lemma {:induction false} TargetedAllIsMergeWhenItFits(s: seq<MediaItem>, incoming: seq<MediaItem>, cap: nat)
    requires WellKept(s, cap) && Consistent(s, incoming) && |OverrideUnion(s, incoming)| <= cap
    ensures IsTop(TargetedAll(s, incoming, cap), OverrideUnion(s, incoming), cap)
    decreases |incoming|
  {
    if incoming == [] {
      assert OverrideUnion(s, incoming) == Elements(s);
      WholeListIsTop(s, cap);
    } else {
      var init, x := incoming[..|incoming| - 1], incoming[|incoming| - 1];
      assert incoming == init + [x];
      assert Consistent(s, init) && |OverrideUnion(s, init)| <= cap by {
        assert forall n :: 0 <= n < |init| ==> init[n] == incoming[n];
        UnionGrows(s, init, x);
      }
      TargetedAllIsMergeWhenItFits(s, init, cap);
      TargetedAllKeepsWell(s, init, cap);
      TargetedMergeStep(s, init, x, TargetedAll(s, init, cap), cap);
    }
  }

  lemma TargetedMergeStep(s: seq<MediaItem>, init: seq<MediaItem>, x: MediaItem, t: seq<MediaItem>, cap: nat)
    requires Consistent(s, init + [x]) && WellKept(t, cap) && IsTop(t, OverrideUnion(s, init), cap)
    requires |OverrideUnion(s, init)| <= cap
    ensures IsTop(Targeted(t, x, cap), OverrideUnion(s, init + [x]), cap)
  {
    UncutTopHasAll(t, OverrideUnion(s, init), cap);
    StillOneMatch(s, init, x, t);
    TargetedOnWhole(t, OverrideUnion(s, init), x, cap);
    UnionStep(s, init, x);
  }

  /** Past the cap it can differ: an insertion evicts a row that a later update would have made room for. */
  lemma OverflowingBatchDiffers(a: MediaItem, b: MediaItem, c: MediaItem, d: MediaItem, a': MediaItem)
    requires Sorted([a, d, b, c, a']) && a'.uri == a.uri && DistinctBatch([a, d, b, c]) && DistinctBatch([d, b, c, a'])
    ensures Targeted(Targeted([a, b, c], d, 3), a', 3) == [d, b, a']
    ensures !IsTop([d, b, a'], OverrideUnion([a, b, c], [d, a']), 3)
  {
    OverflowRun(a, b, c, d, a');
    OverflowLosesTheThird(a, b, c, d, a');
  }

  lemma OverflowRun(a: MediaItem, b: MediaItem, c: MediaItem, d: MediaItem, a': MediaItem)
    requires Sorted([a, d, b, c, a']) && a'.uri == a.uri && DistinctBatch([a, d, b, c]) && DistinctBatch([d, b, c, a'])
    ensures Targeted(Targeted([a, b, c], d, 3), a', 3) == [d, b, a']
  {
    var s := [a, d, b, c, a'];
    assert Before(s[0], s[1]) && Before(s[1], s[2]) && Before(s[1], s[4]) && Before(s[2], s[4]);
    var u, v := [a, d, b, c], [d, b, c, a'];
    assert !Matches(u[0], u[1]) && !Matches(u[1], u[2]) && !Matches(u[1], u[3]);
    RemoveFirstAt([a, b, c], d, 3);
    InsertAt([a, b, c], d, 1);
    assert Targeted([a, b, c], d, 3) == [a, d, b];
    RemoveFirstAt([a, d, b], a', 0);
    InsertAt([d, b], a', 2);
  }

  lemma OverflowLosesTheThird(a: MediaItem, b: MediaItem, c: MediaItem, d: MediaItem, a': MediaItem)
    requires Sorted([a, d, b, c, a']) && DistinctBatch([a, d, b, c]) && DistinctBatch([d, b, c, a'])
    ensures !IsTop([d, b, a'], OverrideUnion([a, b, c], [d, a']), 3)
  {
    var s, v, batch := [a, d, b, c, a'], [d, b, c, a'], [d, a'];
    assert Before(s[3], s[4]);
    assert !Matches(v[0], v[2]) && !Matches(v[1], v[2]) && !Matches(v[2], v[3]);
    assert !MatchesAny(c, batch);
    assert c in [a, b, c] by { assert [a, b, c][2] == c; }
    assert c in OverrideUnion([a, b, c], batch);
    assert a' in [d, b, a'] by { assert [d, b, a'][2] == a'; }
  }

  /** The preserved position of an element whose order did not change is its sorted position. */
  lemma PreservedPosition(s: seq<MediaItem>, x: MediaItem, p: nat)
    requires Sorted(s) && p < |s| && s[p].time == x.time && s[p].id == x.id
    ensures var t := s[..p] + s[p + 1..];
            Insert(t, x) == t[..p] + [x] + t[p..]
  {
    var t := s[..p] + s[p + 1..];
    InsertAt(t, x, p);
  }

  /** On a sorted list within the cap, replacing in place makes no difference. */
  lemma UpsertedIsTargeted(s: seq<MediaItem>, x: MediaItem, cap: nat)
    requires Sorted(s) && |s| <= cap
    ensures Upserted(s, x, cap) == Targeted(s, x, cap)
  {
    var p, t := FirstMatchAt(s, x), RemoveFirst(s, x);
    FirstMatchRemoves(s, x);
    if p < |s| && SameKey(s[p], x) {
      PreservedPosition(s, x, p);
      PlacedIsCapInsert(t, x, p, cap);
    } else {
      InsertPointInserts(t, x);
      PlacedIsCapInsert(t, x, InsertPoint(t, x), cap);
    }
  }

  lemma {:induction false} FirstMatchRemoves(s: seq<MediaItem>, x: MediaItem)
    ensures var p := FirstMatchAt(s, x); RemoveFirst(s, x) == if p < |s| then s[..p] + s[p + 1..] else s
    decreases |s|
  {
    if s != [] && !Matches(s[0], x) {
      FirstMatchRemoves(s[1..], x);
      CutBehindFirst(s, 1 + FirstMatchAt(s[1..], x));
    }
  }

  lemma {:induction false} UpsertedAllIsTargetedAll(s: seq<MediaItem>, incoming: seq<MediaItem>, cap: nat)
    requires WellKept(s, cap) && Consistent(s, incoming)
    ensures UpsertedAll(s, incoming, cap) == TargetedAll(s, incoming, cap)
    decreases |incoming|
  {
    if incoming != [] {
      var init := incoming[..|incoming| - 1];
      assert Consistent(s, init);
      UpsertedAllIsTargetedAll(s, init, cap);
      TargetedAllKeepsWell(s, init, cap);
      UpsertedIsTargeted(TargetedAll(s, init, cap), incoming[|incoming| - 1], cap);
    }
  }

  /** The union does not depend on the order of the batch. */
  lemma UnionOfSorted(s: seq<MediaItem>, batch: seq<MediaItem>)
    requires DistinctBatch(batch)
    ensures OverrideUnion(s, SortBatch(batch)) == OverrideUnion(s, batch)
  {
    SortBatchKeepsItems(batch);
    forall e
      ensures MatchesAny(e, SortBatch(batch)) <==> MatchesAny(e, batch)
    {
      SameMatches(e, SortBatch(batch), batch);
    }
  }

  /** What the targeted path makes of a batch, in whatever order the batch comes. */
  lemma TargetedBatch(s: seq<MediaItem>, batch: seq<MediaItem>, cap: nat)
    requires WellKept(s, cap) && Consistent(s, batch)
    ensures var t := UpsertedAll(s, SortBatch(batch), cap);
            && WellKept(t, cap) && Elements(t) <= OverrideUnion(s, batch)
            && (|batch| == 1 || |OverrideUnion(s, batch)| <= cap ==> IsTop(t, OverrideUnion(s, batch), cap))
  {
    var incoming := SortBatch(batch);
    SortedBatchIsConsistent(s, batch);
    UnionOfSorted(s, batch);
    UpsertedAllIsTargetedAll(s, incoming, cap);
    TargetedAllKeepsWell(s, incoming, cap);
    if |OverrideUnion(s, batch)| <= cap {
      TargetedAllIsMergeWhenItFits(s, incoming, cap);
    } else if |batch| == 1 {
      SingleTargeted(s, batch[0], cap);
      assert batch == [batch[0]];
    }
  }

  lemma SingleTargeted(s: seq<MediaItem>, x: MediaItem, cap: nat)
    requires WellKept(s, cap) && AtMostOneMatch(s, x)
    ensures SortBatch([x]) == [x] && TargetedAll(s, [x], cap) == Targeted(s, x, cap)
    ensures IsTop(TargetedAll(s, [x], cap), OverrideUnion(s, [x]), cap)
  {
    assert [x][..0] == [];
    TargetedIsMergeIffOneMatch(s, x, cap);
  }

  // ---- a batch of new items ----

  /** What the fast path makes of a batch of new items. */
  lemma PlacedBatch(s: seq<MediaItem>, batch: seq<MediaItem>, cap: nat)
    requires WellKept(s, cap) && DistinctBatch(batch) && forall e :: e in s ==> !MatchesAny(e, batch)
    ensures IsTop(PlacedAll(s, SortBatch(batch), cap), OverrideUnion(s, batch), cap)
  {
    var incoming := SortBatch(batch);
    SortBatchKeepsItems(batch);
    forall e | e in s
      ensures !MatchesAny(e, incoming)
    {
      SameMatches(e, incoming, batch);
    }
    PlacedKeepsTop(s, incoming, |incoming|, cap);
    assert incoming[..|incoming|] == incoming;
    assert OverrideUnion(s, batch) == Elements(s) + Elements(incoming);
  }

  lemma {:induction false} PlacedKeepsTop(s: seq<MediaItem>, incoming: seq<MediaItem>, n: nat, cap: nat)
    requires WellKept(s, cap) && DistinctBatch(incoming) && n <= |incoming|
    requires forall e :: e in s ==> !MatchesAny(e, incoming)
    ensures IsTop(PlacedAll(s, incoming[..n], cap), Elements(s) + Elements(incoming[..n]), cap)
    decreases n
  {
    if n == 0 {
      WholeListIsTop(s, cap);
      assert Elements(s) + Elements(incoming[..0]) == Elements(s);
    } else {
      PlacedKeepsTop(s, incoming, n - 1, cap);
      var t, x := PlacedAll(s, incoming[..n - 1], cap), incoming[n - 1];
      assert PlacedAll(s, incoming[..n], cap) == Placed(t, x, InsertPoint(t, x), cap) by {
        assert incoming[..n][..n - 1] == incoming[..n - 1];
      }
      AbsentStep(s, incoming, n - 1);
      PlacedTop(t, Elements(s) + Elements(incoming[..n - 1]), x, cap);
    }
  }

  lemma PlacedTop(t: seq<MediaItem>, rows: set<MediaItem>, x: MediaItem, cap: nat)
    requires IsTop(t, rows, cap) && forall y :: y in rows ==> y.id != x.id
    ensures IsTop(Placed(t, x, InsertPoint(t, x), cap), rows + {x}, cap)
  {
    TopInsert(t, rows, x, cap);
    InsertPointInserts(t, x);
    PlacedIsCapInsert(t, x, InsertPoint(t, x), cap);
  }

  lemma {:induction false} InsertPointOfPrefix(t: seq<MediaItem>, x: MediaItem, n: nat)
    requires n <= |t|
    ensures InsertPoint(t[..n], x) == if InsertPoint(t, x) <= n then InsertPoint(t, x) else n
    decreases n
  {
    if n > 0 && !Before(x, t[0]) {
      InsertPointOfPrefix(t[1..], x, n - 1);
      assert t[..n][1..] == t[1..][..n - 1];
    }
  }

  function Cut(t: seq<MediaItem>, cap: nat): seq<MediaItem> {
    if |t| > cap then t[..cap] else t
  }

  lemma PlacedInCut(t: seq<MediaItem>, x: MediaItem, cap: nat, room: nat)
    requires |t| < room
    ensures Placed(Cut(t, cap), x, InsertPoint(Cut(t, cap), x), cap) == Cut(Placed(t, x, InsertPoint(t, x), room), cap)
  {
    var p, c := InsertPoint(t, x), Cut(t, cap);
    InsertPointOfPrefix(t, x, |c|);
    assert t[..|c|] == c;
    var whole := t[..p] + [x] + t[p..];
    if p < cap {
      assert c[..p] == t[..p];
      var placed := c[..p] + [x] + c[p..];
      assert placed == whole[..|c| + 1];
    } else {
      assert Cut(whole, cap) == c;
    }
  }

  /** Placing under a cap, item by item, is placing without one and cutting once. */
  lemma {:induction false} PlacedIsCut(s: seq<MediaItem>, incoming: seq<MediaItem>, cap: nat, room: nat)
    requires |s| <= cap && |s| + |incoming| <= room
    ensures PlacedAll(s, incoming, cap) == Cut(PlacedAll(s, incoming, room), cap)
    decreases |incoming|
  {
    if incoming != [] {
      var init, x := incoming[..|incoming| - 1], incoming[|incoming| - 1];
      PlacedIsCut(s, init, cap, room);
      PlacedKeepsCopies(s, init, room);
      PlacedInCut(PlacedAll(s, init, room), x, cap, room);
    }
  }

  /** A batch that fits is placed whole: every item is in the list as often as in the batch. */
  lemma {:induction false} PlacedKeepsCopies(s: seq<MediaItem>, incoming: seq<MediaItem>, cap: nat)
    requires |s| + |incoming| <= cap
    ensures multiset(PlacedAll(s, incoming, cap)) == multiset(s) + multiset(incoming)
    ensures |PlacedAll(s, incoming, cap)| == |s| + |incoming|
    decreases |incoming|
  {
    if incoming != [] {
      var init, x := incoming[..|incoming| - 1], incoming[|incoming| - 1];
      PlacedKeepsCopies(s, init, cap);
      assert incoming == init + [x];
      PlacedAddsOne(PlacedAll(s, init, cap), x, cap);
    }
  }

  lemma PlacedAddsOne(t: seq<MediaItem>, x: MediaItem, cap: nat)
    requires |t| < cap
    ensures var r := Placed(t, x, InsertPoint(t, x), cap);
            multiset(r) == multiset(t) + multiset{x} && |r| == |t| + 1
  {
    var p := InsertPoint(t, x);
    assert t == t[..p] + t[p..];
  }

  lemma {:induction false} SortBatchKeepsCopies(batch: seq<MediaItem>)
    ensures multiset(SortBatch(batch)) == multiset(batch) && |SortBatch(batch)| == |batch|
    decreases |batch|
  {
    if batch != [] {
      var init, x := batch[..|batch| - 1], batch[|batch| - 1];
      SortBatchKeepsCopies(init);
      assert batch == init + [x];
      InsertAddsCopy(SortBatch(init), x);
    }
  }

  lemma InsertAddsCopy(t: seq<MediaItem>, x: MediaItem)
    ensures multiset(Insert(t, x)) == multiset(t) + multiset{x} && |Insert(t, x)| == |t| + 1
  {
    InsertPointInserts(t, x);
    CopiesOfParts(t, InsertPoint(t, x), x);
  }

  lemma CopiesOfParts(t: seq<MediaItem>, p: nat, x: MediaItem)
    requires p <= |t|
    ensures multiset(t[..p] + [x] + t[p..]) == multiset(t) + multiset{x}
  {
    assert t == t[..p] + t[p..];
  }

  /** No two copies, and no two that share an id or a uri. */
  ghost predicate DistinctCopies(m: multiset<MediaItem>) {
    (forall a :: m[a] <= 1) && forall a, b :: a in m && b in m && Matches(a, b) ==> a == b
  }

  lemma DistinctIsAboutCopies(s: seq<MediaItem>)
    ensures DistinctBatch(s) <==> DistinctCopies(multiset(s))
  {
    if DistinctBatch(s) {
      DistinctHasOneCopy(s);
    }
    if !DistinctBatch(s) {
      var i, j :| 0 <= i < j < |s| && Matches(s[i], s[j]);
      TwoCopies(s, i, j);
    }
  }

  lemma {:induction false} DistinctHasOneCopy(s: seq<MediaItem>)
    requires DistinctBatch(s)
    ensures DistinctCopies(multiset(s))
    decreases |s|
  {
    if s != [] {
      var init, x := s[..|s| - 1], s[|s| - 1];
      DistinctHasOneCopy(init);
      assert s == init + [x];
      BatchDoesNotMatch(init, x);
      assert Matches(x, x);
    }
  }

  lemma TwoCopies(s: seq<MediaItem>, i: nat, j: nat)
    requires i < j < |s| && Matches(s[i], s[j])
    ensures !DistinctCopies(multiset(s))
  {
    var a, b, c := s[..i], s[i + 1..j], s[j + 1..];
    assert s == a + [s[i]] + b + [s[j]] + c;
    assert s[i] in multiset(s) && s[j] in multiset(s);
    assert s[i] == s[j] ==> multiset(s)[s[i]] >= 2;
  }

  /**
   The fast path does not look for repetitions inside the batch: a list with room for the batch stays distinct exactly
   if the batch is, and a list that overflows is the cut of one with room.
   */
  lemma PlacedIsDistinctIffBatchIs(s: seq<MediaItem>, batch: seq<MediaItem>, cap: nat)
    requires DistinctBatch(s) && |s| + |batch| <= cap && forall e :: e in s ==> !MatchesAny(e, batch)
    ensures DistinctBatch(PlacedAll(s, SortBatch(batch), cap)) <==> DistinctBatch(batch)
    ensures forall small: nat :: |s| <= small <= cap ==>
              PlacedAll(s, SortBatch(batch), small) == Cut(PlacedAll(s, SortBatch(batch), cap), small)
  {
    SortBatchKeepsCopies(batch);
    forall small: nat | |s| <= small <= cap
      ensures PlacedAll(s, SortBatch(batch), small) == Cut(PlacedAll(s, SortBatch(batch), cap), small)
    {
      PlacedIsCut(s, SortBatch(batch), small, cap);
    }
    PlacedKeepsCopies(s, SortBatch(batch), cap);
    DistinctIsAboutCopies(s);
    DistinctIsAboutCopies(batch);
    DistinctIsAboutCopies(PlacedAll(s, SortBatch(batch), cap));
    assert forall x :: x in multiset(batch) <==> x in batch;
    forall a, b | a in s && b in batch
      ensures !Matches(a, b)
    {
      var i :| 0 <= i < |batch| && batch[i] == b;
      assert !MatchesAny(a, batch);
    }
    SumIsDistinctIff(multiset(s), multiset(batch));
  }

  lemma SumIsDistinctIff(m: multiset<MediaItem>, n: multiset<MediaItem>)
    requires DistinctCopies(m) && forall a, b :: a in m && b in n ==> !Matches(a, b)
    ensures DistinctCopies(m + n) <==> DistinctCopies(n)
  {
    assert forall a :: a in m && a in n ==> Matches(a, a);
    assert forall a :: (m + n)[a] == m[a] + n[a];
    assert forall a, b :: Matches(a, b) <==> Matches(b, a);
  }

  // ---- the full merge ----

  /** The map the full merge builds: a later item replaces an earlier one with the same uri. */
  function ByUri(s: seq<MediaItem>): map<string, MediaItem> {
    if s == [] then map[] else ByUri(s[..|s| - 1])[s[|s| - 1].uri := s[|s| - 1]]
  }

  /** `x` is the last element with its uri. */
  predicate LastOfUri(s: seq<MediaItem>, x: MediaItem) {
    exists i :: 0 <= i < |s| && s[i] == x && forall j :: i < j < |s| ==> s[j].uri != x.uri
  }

  lemma {:induction false} ByUriHoldsTheLast(s: seq<MediaItem>, x: MediaItem)
    ensures x.uri in ByUri(s) && ByUri(s)[x.uri] == x <==> LastOfUri(s, x)
    decreases |s|
  {
    if s != [] {
      var init, y := s[..|s| - 1], s[|s| - 1];
      ByUriHoldsTheLast(init, x);
      if LastOfUri(init, x) && x.uri != y.uri {
        var i :| 0 <= i < |init| && init[i] == x && forall j :: i < j < |init| ==> init[j].uri != x.uri;
        assert s[i] == x && forall j :: i < j < |s| ==> s[j].uri != x.uri;
      }
      if x == y {
        assert s[|s| - 1] == x;
      } else if LastOfUri(s, x) {
        var i :| 0 <= i < |s| && s[i] == x && forall j :: i < j < |s| ==> s[j].uri != x.uri;
        assert init[i] == x && y.uri != x.uri;
      }
    }
  }

  lemma {:induction false} ByUriIsKeyedByUri(s: seq<MediaItem>)
    ensures forall u :: u in ByUri(s) ==> ByUri(s)[u].uri == u
    decreases |s|
  {
    if s != [] {
      ByUriIsKeyedByUri(s[..|s| - 1]);
    }
  }

  /** The rows the full merge keeps. */
  function UriUnion(s: seq<MediaItem>, batch: seq<MediaItem>): set<MediaItem> {
    var m := ByUri(s + batch);
    set u | u in m :: m[u]
  }

  lemma InUriUnion(s: seq<MediaItem>, batch: seq<MediaItem>, x: MediaItem)
    ensures x in UriUnion(s, batch) <==> LastOfUri(s + batch, x)
  {
    ByUriHoldsTheLast(s + batch, x);
    ByUriIsKeyedByUri(s + batch);
    if x.uri in ByUri(s + batch) && ByUri(s + batch)[x.uri] == x {
      assert x in UriUnion(s, batch);
    }
  }

  lemma LastInAppend(s: seq<MediaItem>, batch: seq<MediaItem>, x: MediaItem)
    requires DistinctBatch(s) && DistinctBatch(batch)
    ensures LastOfUri(s + batch, x) <==> x in batch || (x in s && forall b :: b in batch ==> b.uri != x.uri)
  {
    var t := s + batch;
    if i :| 0 <= i < |t| && t[i] == x && forall j :: i < j < |t| ==> t[j].uri != x.uri {
      if i < |s| {
        assert forall k :: 0 <= k < |batch| ==> batch[k] == t[|s| + k];
      }
    }
    if x in batch {
      var k :| 0 <= k < |batch| && batch[k] == x;
      assert t[|s| + k] == x;
      assert forall j :: |s| + k < j < |t| ==> t[j] == batch[j - |s|] && !Matches(batch[k], batch[j - |s|]);
    } else if x in s && forall b :: b in batch ==> b.uri != x.uri {
      var i :| 0 <= i < |s| && s[i] == x;
      assert t[i] == x;
      forall j | i < j < |t|
        ensures t[j].uri != x.uri
      {
        if j < |s| {
          assert !Matches(s[i], s[j]);
        } else {
          assert t[j] in batch;
        }
      }
    }
  }

  /** Every list element that a batch item replaces shares its uri with one. */
  ghost predicate UrisDecide(s: seq<MediaItem>, batch: seq<MediaItem>) {
    forall e :: e in s && MatchesAny(e, batch) ==> exists b :: b in batch && b.uri == e.uri
  }

  /**
   The full merge keys on the uri alone. Its rows are the specified union exactly when no list element
   shares an id with the batch without also sharing a uri with it.
   */
  lemma FullMergeIsUnionIffUrisDecide(s: seq<MediaItem>, batch: seq<MediaItem>)
    requires DistinctBatch(s) && DistinctBatch(batch)
    ensures UriUnion(s, batch) == OverrideUnion(s, batch) <==> UrisDecide(s, batch)
  {
    forall x
      ensures x in UriUnion(s, batch) <==> x in batch || (x in s && forall b :: b in batch ==> b.uri != x.uri)
    {
      InUriUnion(s, batch, x);
      LastInAppend(s, batch, x);
    }
    if UrisDecide(s, batch) {
      forall x
        ensures x in UriUnion(s, batch) <==> x in OverrideUnion(s, batch)
      {
        if b :| b in batch && b.uri == x.uri {
          var i :| 0 <= i < |batch| && batch[i] == b;
          assert Matches(x, batch[i]);
        }
      }
    } else {
      var e :| e in s && MatchesAny(e, batch) && forall b :: b in batch ==> b.uri != e.uri;
      assert e in UriUnion(s, batch);
      assert e !in batch;
    }
  }

  /** Rows that the order tells apart. */
  predicate DistinctKeys(rows: set<MediaItem>) {
    forall a, b :: a in rows && b in rows && a.time == b.time && a.id == b.id ==> a == b
  }

  /** Sorted, where elements with equal sort keys may stand in either order. */
  predicate WeaklySorted(s: seq<MediaItem>) {
    forall i, j :: 0 <= i < j < |s| ==> !Before(s[j], s[i])
  }

  /** First `cap` rows of `rows`, where the order among equal sort keys is open. */
  ghost predicate IsWeakTop(s: seq<MediaItem>, rows: set<MediaItem>, cap: nat) {
    && WeaklySorted(s) && NoDuplicates(s)
    && Elements(s) <= rows
    && |s| == (if |rows| <= cap then |rows| else cap)
    && forall x, y :: x in s && y in rows && y !in s ==> !Before(y, x)
  }

  /** With sort keys that differ this is the one list of the first `cap` rows. */
  lemma WeakTopIsTop(s: seq<MediaItem>, rows: set<MediaItem>, cap: nat)
    requires IsWeakTop(s, rows, cap) && DistinctKeys(rows)
    ensures IsTop(s, rows, cap)
  {
    assert forall x :: x in s ==> x in Elements(s);
    assert forall i :: 0 <= i < |s| ==> s[i] in s;
  }

  lemma UnionHasDistinctKeys(s: seq<MediaItem>, batch: seq<MediaItem>)
    requires DistinctBatch(s) && DistinctBatch(batch)
    ensures DistinctKeys(OverrideUnion(s, batch))
  {
    forall a, b | a in OverrideUnion(s, batch) && b in OverrideUnion(s, batch) && a != b
      ensures a.id != b.id
    {
      if a in batch && b in batch {
        DifferentIds(batch, a, b);
      } else if a in batch {
        UnmatchedDiffers(b, batch, a);
      } else if b in batch {
        UnmatchedDiffers(a, batch, b);
      } else {
        DifferentIds(s, a, b);
      }
    }
  }

  lemma DifferentIds(s: seq<MediaItem>, a: MediaItem, b: MediaItem)
    requires DistinctBatch(s) && a in s && b in s && a != b
    ensures a.id != b.id
  {
    var i :| 0 <= i < |s| && s[i] == a;
    var j :| 0 <= j < |s| && s[j] == b;
    assert if i < j then !Matches(s[i], s[j]) else !Matches(s[j], s[i]);
  }

  lemma UnmatchedDiffers(e: MediaItem, batch: seq<MediaItem>, b: MediaItem)
    requires !MatchesAny(e, batch) && b in batch
    ensures e.id != b.id
  {
    var i :| 0 <= i < |batch| && batch[i] == b;
    assert !Matches(e, batch[i]);
  }

  /** Where uris decide, the full merge yields the first `cap` rows of the sorted override-union. */
  lemma FullMergeIsTop(s: seq<MediaItem>, batch: seq<MediaItem>, t: seq<MediaItem>, cap: nat)
    requires DistinctBatch(s) && DistinctBatch(batch) && UrisDecide(s, batch)
    requires IsWeakTop(t, UriUnion(s, batch), cap)
    ensures IsTop(t, OverrideUnion(s, batch), cap)
  {
    FullMergeIsUnionIffUrisDecide(s, batch);
    UnionHasDistinctKeys(s, batch);
    WeakTopIsTop(t, OverrideUnion(s, batch), cap);
  }

  lemma {:induction false} NoRepeatsCount(s: seq<MediaItem>)
    requires NoDuplicates(s)
    ensures |Elements(s)| == |s|
    decreases |s|
  {
    if s != [] {
      var init, x := s[..|s| - 1], s[|s| - 1];
      NoRepeatsCount(init);
      assert s == init + [x];
      assert Elements(s) == Elements(init) + {x};
      assert x !in init;
    }
  }

  lemma CutOfWholeIsWeakTop(t: seq<MediaItem>, rows: set<MediaItem>, cap: nat)
    requires WeaklySorted(t) && NoDuplicates(t) && Elements(t) == rows
    ensures IsWeakTop(if |t| > cap then t[..cap] else t, rows, cap)
  {
    NoRepeatsCount(t);
    if |t| > cap {
      var kept := t[..cap];
      assert forall k :: 0 <= k < cap ==> t[k] in kept by {
        assert forall k :: 0 <= k < cap ==> kept[k] == t[k];
      }
      forall x, y | x in kept && y in rows && y !in kept
        ensures !Before(y, x)
      {
        assert y in t;
        var i :| 0 <= i < cap && t[i] == x;
        var j :| 0 <= j < |t| && t[j] == y;
      }
    }
  }

  lemma {:induction false} InsertIsWeaklySorted(s: seq<MediaItem>, x: MediaItem)
    requires WeaklySorted(s)
    ensures WeaklySorted(Insert(s, x))
    decreases |s|
  {
    if s != [] && !Before(x, s[0]) {
      var rest := Insert(s[1..], x);
      InsertIsWeaklySorted(s[1..], x);
      InsertAddsOne(s[1..], x);
      forall j | 0 <= j < |rest|
        ensures !Before(rest[j], s[0])
      {
        assert rest[j] in Elements(s[1..]) + {x};
      }
    }
  }

  lemma InsertHasNoRepeats(s: seq<MediaItem>, x: MediaItem)
    requires NoDuplicates(s) && x !in s
    ensures NoDuplicates(Insert(s, x))
  {
    InsertPointInserts(s, x);
  }

  /** A file renamed in place keeps id and sort time: the full merge then shows it twice, the specified union once. */
  lemma RenameIsShownTwice(e: MediaItem, x: MediaItem)
    requires SameKey(e, x) && e.uri != x.uri
    ensures UriUnion([e], [x]) == {e, x} && OverrideUnion([e], [x]) == {x} && x.id == e.id
    ensures forall t, cap: nat :: IsWeakTop(t, UriUnion([e], [x]), cap) && cap >= 2 ==> e in t && x in t
  {
    UnionWithOne([e], x);
    assert Matches(e, x);
    forall y
      ensures y in UriUnion([e], [x]) <==> y in {e, x}
    {
      InUriUnion([e], [x], y);
      LastInAppend([e], [x], y);
    }
    assert |{e, x}| == 2;
    forall t, cap: nat | IsWeakTop(t, {e, x}, cap) && cap >= 2
      ensures e in t && x in t
    {
      NoRepeatsCount(t);
      SubsetOfSameSize(Elements(t), {e, x});
      assert e in Elements(t) && x in Elements(t);
    }
  }

  datatype ChangeSource =
    StartupScan | FilesystemWatcher | UserInteractive | TrashReconcile | ThumbnailWorker | Synchronization

  lemma SortedBatchIsConsistent(s: seq<MediaItem>, batch: seq<MediaItem>)
    requires Consistent(s, batch)
    ensures Consistent(s, SortBatch(batch))
  {
    SortBatchKeepsItems(batch);
    var t := SortBatch(batch);
    forall n | 0 <= n < |t|
      ensures AtMostOneMatch(s, t[n])
    {
      assert t[n] in Elements(batch);
      var k :| 0 <= k < |batch| && batch[k] == t[n];
    }
  }

  class List {
    var items: seq<MediaItem>
    const cap: nat

    constructor (cap: nat)
      ensures items == [] && this.cap == cap
    {
      items, this.cap := [], cap;
    }

    /** Replace `n` elements from `position` on by `additions`. */
    method Splice(position: nat, n: nat, additions: seq<MediaItem>)
      requires position + n <= |items|
      modifies this
      ensures items == old(items)[..position] + additions + old(items)[position + n..]
    {
      items := items[..position] + additions + items[position + n..];
    }

    /** Remove every element with one of the uris: collect, coalesce, then splice from the back. */
    method RemoveUrisBatch(uris: seq<string>)
      modifies this
      ensures items == Without(old(items), set u | u in uris)
    {
      var uriSet := set u | u in uris;
      if uris == [] || |items| == 0 {
        WithoutNone(items, uriSet);
        return;
      }
      var positions := HitPositions(items, uriSet);
      if positions == [] {
        WithoutNone(items, uriSet);
        return;
      }
      var ranges := Coalesce(items, uriSet, positions);
      SpliceRanges(ranges, uriSet);
    }

    /** The reverse splicing loop. */
    method SpliceRanges(ranges: seq<Range>, ghost uris: set<string>)
      requires Covers(ranges, items, uris) && EndOf(ranges) <= |items|
      requires NoneHit(items, EndOf(ranges), |items|, uris)
      modifies this
      ensures items == Without(old(items), uris)
    {
      ghost var s := items;
      ghost var done: nat := |s|;
      assert s[done..] == [] && ranges[..|ranges|] == ranges;
      for n := |ranges| downto 0
        invariant 0 <= done && StillCovers(ranges, n, s, done, uris)
        invariant items == s[..done] + Without(s[done..], uris)
      {
        var r := ranges[n];
        RangeStep(ranges, n, s, done, uris);
        Splice(r.start, r.len, []);
        done := r.start;
      }
      assert ranges[..0] == [];
      NothingLeft(s, done, uris);
    }

    /** Where a new element goes: before the first one it precedes. */
    method SortedInsertPosition(x: MediaItem) returns (p: nat)
      ensures p == InsertPoint(items, x) && p <= |items| && Insert(items, x) == items[..p] + [x] + items[p..]
    {
      InsertPointInserts(items, x);
      for i := 0 to |items|
        invariant InsertPoint(items, x) == i + InsertPoint(items[i..], x)
      {
        if Before(x, items[i]) {
          return i;
        }
        assert items[i..][1..] == items[i + 1..];
      }
      p := |items|;
    }

    /** Insert `x` at `p`, skip it past the cap, and evict the last element on overflow. */
    method InsertUnderCap(x: MediaItem, p: nat)
      requires p <= |items|
      modifies this
      ensures items == Placed(old(items), x, p, cap)
    {
      if p >= cap {
        return;
      }
      items := items[..p] + [x] + items[p..];
      if |items| > cap {
        items := items[..|items| - 1];
      }
    }

    /** The insertion loop of the fast path. */
    method InsertAll(incoming: seq<MediaItem>)
      modifies this
      ensures items == PlacedAll(old(items), incoming, cap)
    {
      assert incoming[..0] == [];
      for n := 0 to |incoming|
        invariant items == PlacedAll(old(items), incoming[..n], cap)
      {
        assert incoming[..n + 1][..n] == incoming[..n];
        var p := SortedInsertPosition(incoming[n]);
        InsertUnderCap(incoming[n], p);
      }
      assert incoming[..|incoming|] == incoming;
    }

    /** Some batch item's id or uri is in the list. */
    method AnyPresent(batch: seq<MediaItem>) returns (present: bool)
      ensures present <==> exists e :: e in items && MatchesAny(e, batch)
    {
      var uris, ids := set e | e in items :: e.uri, set e | e in items :: e.id;
      present := exists i :: 0 <= i < |batch| && (batch[i].uri in uris || batch[i].id in ids);
      if present {
        var i :| 0 <= i < |batch| && (batch[i].uri in uris || batch[i].id in ids);
        var e :| e in items && Matches(e, batch[i]);
        assert MatchesAny(e, batch);
      }
      if e :| e in items && MatchesAny(e, batch) {
        assert e.uri in uris && e.id in ids;
      }
    }

    /** The fast path for a batch none of whose ids or uris is in the list yet. */
    method ApplyAbsentItemInsertions(batch: seq<MediaItem>) returns (applied: bool)
      modifies this
      ensures applied <==> forall e :: e in old(items) ==> !MatchesAny(e, batch)
      ensures !applied ==> items == old(items)
      ensures applied ==> items == PlacedAll(old(items), SortBatch(batch), cap)
      ensures applied && WellKept(old(items), cap) && DistinctBatch(batch) ==>
                IsTop(items, OverrideUnion(old(items), batch), cap)
    {
      ghost var s := items;
      var present := AnyPresent(batch);
      if present {
        return false;
      }
      InsertAll(SortBatch(batch));
      if WellKept(s, cap) && DistinctBatch(batch) {
        PlacedBatch(s, batch, cap);
      }
      applied := true;
    }

    /** Take the first matching element out; says where it was and whether its sort key is that of `x`. */
    method TakeMatch(x: MediaItem) returns (existing: nat, preserves: bool)
      modifies this
      ensures existing == FirstMatchAt(old(items), x) && items == RemoveFirst(old(items), x)
      ensures preserves <==> existing < |old(items)| && SameKey(old(items)[existing], x)
    {
      FirstMatchRemoves(items, x);
      assert items[0..] == items;
      for index := 0 to |items|
        invariant items == old(items) && FirstMatchAt(items, x) == index + FirstMatchAt(items[index..], x)
      {
        if items[index].uri == x.uri || items[index].id == x.id {
          preserves := items[index].time == x.time && items[index].id == x.id;
          items := items[..index] + items[index + 1..];
          return index, preserves;
        }
        assert items[index..][1..] == items[index + 1..];
      }
      existing, preserves := |items|, false;
    }

    /** One item of the targeted path. */
    method UpsertOne(x: MediaItem)
      modifies this
      ensures items == Upserted(old(items), x, cap)
      ensures Sorted(old(items)) && |old(items)| <= cap ==> items == Targeted(old(items), x, cap)
    {
      ghost var s := items;
      var existing, preserves := TakeMatch(x);
      var position;
      if preserves {
        position := if existing <= |items| then existing else |items|;
      } else {
        position := SortedInsertPosition(x);
      }
      InsertUnderCap(x, position);
      if Sorted(s) && |s| <= cap {
        UpsertedIsTargeted(s, x, cap);
      }
    }

    /** The path for updates outside the startup scan: replace and reinsert item by item. */
    method ApplyTargetedUpserts(batch: seq<MediaItem>)
      modifies this
      ensures items == UpsertedAll(old(items), SortBatch(batch), cap)
      ensures WellKept(old(items), cap) && Consistent(old(items), batch) ==>
                && WellKept(items, cap) && Elements(items) <= OverrideUnion(old(items), batch)
                && (|batch| == 1 || |OverrideUnion(old(items), batch)| <= cap ==>
                      IsTop(items, OverrideUnion(old(items), batch), cap))
    {
      ghost var s := items;
      var incoming := SortBatch(batch);
      assert incoming[..0] == [];
      for n := 0 to |incoming|
        invariant items == UpsertedAll(s, incoming[..n], cap)
      {
        assert incoming[..n + 1][..n] == incoming[..n];
        UpsertOne(incoming[n]);
      }
      assert incoming[..|incoming|] == incoming;
      if WellKept(s, cap) && Consistent(s, batch) {
        TargetedBatch(s, batch, cap);
      }
    }

    /** The full merge: collect by uri, sort, cut, and replace the whole list. */
    method MergeAll(batch: seq<MediaItem>)
      modifies this
      ensures IsWeakTop(items, UriUnion(old(items), batch), cap)
      ensures DistinctKeys(UriUnion(old(items), batch)) ==> IsTop(items, UriUnion(old(items), batch), cap)
      ensures DistinctBatch(old(items)) && DistinctBatch(batch) && UrisDecide(old(items), batch) ==>
                IsTop(items, OverrideUnion(old(items), batch), cap)
    {
      ghost var s := items;
      ghost var rows := UriUnion(items, batch);
      var byUri := CollectByUri(items + batch);
      ByUriIsKeyedByUri(items + batch);
      var merged := SortedValues(byUri);
      CutOfWholeIsWeakTop(merged, rows, cap);
      if |merged| > cap {
        merged := merged[..cap];
      }
      Splice(0, |items|, merged);
      assert items == merged;
      if DistinctKeys(rows) {
        WeakTopIsTop(items, rows, cap);
      }
      if DistinctBatch(s) && DistinctBatch(batch) && UrisDecide(s, batch) {
        FullMergeIsTop(s, batch, items, cap);
      }
    }

    /** The dispatcher of an upsert event. */
    method ApplyUpsertedBatch(source: ChangeSource, batch: seq<MediaItem>)
      modifies this
      ensures batch == [] || (source.StartupScan? && |old(items)| >= cap) ==> items == old(items)
      ensures batch != [] && !(source.StartupScan? && |old(items)| >= cap) ==>
                if forall e :: e in old(items) ==> !MatchesAny(e, batch)
                then items == PlacedAll(old(items), SortBatch(batch), cap)
                else if source.StartupScan? then IsWeakTop(items, UriUnion(old(items), batch), cap)
                else items == UpsertedAll(old(items), SortBatch(batch), cap)
      ensures batch != [] && !(source.StartupScan? && |old(items)| >= cap)
              && WellKept(old(items), cap) && Consistent(old(items), batch)
              && ((forall e :: e in old(items) ==> !MatchesAny(e, batch))
                  || if source.StartupScan? then UrisDecide(old(items), batch)
                     else |batch| == 1 || |OverrideUnion(old(items), batch)| <= cap) ==>
                IsTop(items, OverrideUnion(old(items), batch), cap)
    {
      if batch == [] {
        return;
      }
      if source.StartupScan? && |items| >= cap {
        return;
      }
      var applied := ApplyAbsentItemInsertions(batch);
      if applied {
        return;
      }
      if !source.StartupScan? {
        ApplyTargetedUpserts(batch);
        return;
      }
      MergeAll(batch);
    }
  }

  /** `positions` are exactly the indices below `n` whose element is hit, in order. */
  predicate AreHits(positions: seq<nat>, s: seq<MediaItem>, n: nat, uris: set<string>)
    requires n <= |s|
  {
    && (forall i, j :: 0 <= i < j < |positions| ==> positions[i] < positions[j])
    && (forall i :: 0 <= i < |positions| ==> positions[i] < n && s[positions[i]].uri in uris)
    && (forall k :: 0 <= k < n && s[k].uri in uris ==> k in positions)
  }

  method HitPositions(s: seq<MediaItem>, uris: set<string>) returns (positions: seq<nat>)
    ensures AreHits(positions, s, |s|, uris)
    ensures positions == [] ==> forall x :: x in s ==> x.uri !in uris
  {
    positions := [];
    for i := 0 to |s|
      invariant AreHits(positions, s, i, uris)
    {
      if s[i].uri in uris {
        positions := positions + [i];
      }
    }
  }

  /** Runs of adjacent positions become ranges. */
  method Coalesce(s: seq<MediaItem>, uris: set<string>, positions: seq<nat>) returns (ranges: seq<Range>)
    requires positions != [] && AreHits(positions, s, |s|, uris)
    ensures Covers(ranges, s, uris) && EndOf(ranges) <= |s| && NoneHit(s, EndOf(ranges), |s|, uris)
  {
    ranges := [];
    var start, end := positions[0], positions[0];
    assert NoneHit(s, 0, start, uris);
    for i := 1 to |positions|
      invariant Covers(ranges, s, uris)
      invariant EndOf(ranges) <= start <= end < |s|
      invariant end == positions[i - 1]
      invariant NoneHit(s, EndOf(ranges), start, uris)
      invariant AllHit(s, start, end + 1, uris)
    {
      var pos := positions[i];
      assert NoneHit(s, end + 1, pos, uris) by {
        NoHitBetween(positions, s, uris, i);
      }
      if pos == end + 1 {
        end := pos;
      } else {
        ranges := CoverWith(ranges, Range(start, end - start + 1), s, uris);
        start, end := pos, pos;
      }
    }
    NoHitBetween(positions, s, uris, |positions|);
    ranges := CoverWith(ranges, Range(start, end - start + 1), s, uris);
  }

  function CoverWith(ranges: seq<Range>, r: Range, ghost s: seq<MediaItem>, ghost uris: set<string>): (more: seq<Range>)
    requires Covers(ranges, s, uris) && EndOf(ranges) <= r.start && r.start + r.len <= |s|
    requires NoneHit(s, EndOf(ranges), r.start, uris) && AllHit(s, r.start, r.start + r.len, uris)
    ensures Covers(more, s, uris) && EndOf(more) == r.start + r.len
  {
    assert (ranges + [r])[..|ranges|] == ranges;
    ranges + [r]
  }

  lemma NoHitBetween(positions: seq<nat>, s: seq<MediaItem>, uris: set<string>, i: nat)
    requires AreHits(positions, s, |s|, uris) && 1 <= i <= |positions|
    ensures NoneHit(s, positions[i - 1] + 1, if i < |positions| then positions[i] else |s|, uris)
  {
    var hi := if i < |positions| then positions[i] else |s|;
    forall k | positions[i - 1] + 1 <= k < hi
      ensures s[k].uri !in uris
    {
      if s[k].uri in uris {
        var j :| 0 <= j < |positions| && positions[j] == k;
      }
    }
  }

  /** List and batch by uri, later items replacing earlier ones. */
  method CollectByUri(all: seq<MediaItem>) returns (byUri: map<string, MediaItem>)
    ensures byUri == ByUri(all)
  {
    byUri := map[];
    assert all[..0] == [];
    for i := 0 to |all|
      invariant byUri == ByUri(all[..i])
    {
      assert all[..i + 1][..i] == all[..i];
      byUri := byUri[all[i].uri := all[i]];
    }
    assert all[..|all|] == all;
  }

  /** The values of the map in list order, whatever order the map yields them in. */
  method SortedValues(m: map<string, MediaItem>) returns (t: seq<MediaItem>)
    requires forall u :: u in m ==> m[u].uri == u
    ensures WeaklySorted(t) && NoDuplicates(t) && Elements(t) == set u | u in m :: m[u]
  {
    t := [];
    var left := m.Keys;
    while left != {}
      invariant left <= m.Keys && WeaklySorted(t) && NoDuplicates(t)
      invariant Elements(t) == set u | u in m && u !in left :: m[u]
      decreases |left|
    {
      var u :| u in left;
      assert m[u] !in t by {
        assert m[u] !in Elements(t);
      }
      InsertIsWeaklySorted(t, m[u]);
      InsertHasNoRepeats(t, m[u]);
      InsertAddsOne(t, m[u]);
      t := Insert(t, m[u]);
      left := left - {u};
    }
  }
}
