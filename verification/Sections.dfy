/** Date sections of the photo grids: grouping a list, folding day counts, and finding the section of an offset. */
module Sections {
  import opened Basics
  import opened MediaOrder

  datatype GroupBy = Year | Month | Day

  datatype Date = Date(year: int, month: nat, day: nat)

  datatype SectionKey = SectionKey(year: Option<int>, month: Option<nat>, day: Option<nat>)

  /** One calendar for list and database: later instants never have earlier dates. */
  type Calendar = int -> Date

  predicate DateBefore(a: Date, b: Date) {
    || a.year < b.year
    || (a.year == b.year && (a.month < b.month || (a.month == b.month && a.day < b.day)))
  }

  ghost predicate Monotone(cal: Calendar) {
    forall t, u :: t <= u ==> !DateBefore(cal(u), cal(t))
  }

  function KeyOfDate(d: Date, mode: GroupBy): SectionKey {
    match mode
    case Year => SectionKey(Some(d.year), None, None)
    case Month => SectionKey(Some(d.year), Some(d.month), None)
    case Day => SectionKey(Some(d.year), Some(d.month), Some(d.day))
  }

  function MakeKey(x: MediaItem, mode: GroupBy, cal: Calendar): SectionKey {
    KeyOfDate(cal(x.time), mode)
  }

  /** Two dates belong to the same section. */
  predicate SamePeriod(a: Date, b: Date, mode: GroupBy) {
    match mode
    case Year => a.year == b.year
    case Month => a.year == b.year && a.month == b.month
    case Day => a.year == b.year && a.month == b.month && a.day == b.day
  }

  /** The key gives exactly the parts of the date that the mode looks at. */
  predicate Names(k: SectionKey, d: Date, mode: GroupBy) {
    && k.year == Some(d.year)
    && k.month == (if mode == Year then None else Some(d.month))
    && k.day == (if mode == Day then Some(d.day) else None)
  }

  /** Items share a key exactly if their dates agree as far as the mode looks, and the key names that. */
  lemma KeyNamesItsPeriod(x: MediaItem, y: MediaItem, mode: GroupBy, cal: Calendar)
    ensures MakeKey(x, mode, cal) == MakeKey(y, mode, cal) <==> SamePeriod(cal(x.time), cal(y.time), mode)
    ensures Names(MakeKey(x, mode, cal), cal(x.time), mode)
    ensures Names(MakeKey(x, mode, cal), cal(y.time), mode) <==> SamePeriod(cal(x.time), cal(y.time), mode)
  {
  }

  /** The items of a date's section, in list order. */
  function InPeriod(items: seq<MediaItem>, d: Date, mode: GroupBy, cal: Calendar): seq<MediaItem> {
    if items == [] then []
    else
      var init, x := items[..|items| - 1], items[|items| - 1];
      InPeriod(init, d, mode, cal) + (if SamePeriod(cal(x.time), d, mode) then [x] else [])
  }

  function Or<T>(o: Option<T>, default: T): T {
    if o.Some? then o.value else default
  }

  const I64_MIN := -0x8000_0000_0000_0000

  /** The date rank of `a` is above that of `b`: the section comes earlier in a newest-first list. */
  predicate Newer(a: SectionKey, b: SectionKey) {
    var y, z := Or(a.year, I64_MIN), Or(b.year, I64_MIN);
    var m, n := Or(a.month, 0), Or(b.month, 0);
    y > z || (y == z && (m > n || (m == n && Or(a.day, 0) > Or(b.day, 0))))
  }

  /** All keys of one mode have the same shape. */
  predicate OfMode(k: SectionKey, mode: GroupBy) {
    && k.year.Some?
    && (k.month.Some? <==> !mode.Year?) && (k.day.Some? <==> mode.Day?)
  }

  lemma KeysOfOneModeCompare(a: SectionKey, b: SectionKey, mode: GroupBy)
    requires OfMode(a, mode) && OfMode(b, mode)
    ensures a == b || Newer(a, b) || Newer(b, a)
    ensures !(Newer(a, b) && Newer(b, a)) && !Newer(a, a)
  {
  }

  // ---- keys of a list ----

  function Keys(items: seq<MediaItem>, mode: GroupBy, cal: Calendar): (ks: seq<SectionKey>)
    ensures |ks| == |items| && forall i :: 0 <= i < |items| ==> ks[i] == MakeKey(items[i], mode, cal)
  {
    seq(|items|, i requires 0 <= i < |items| => MakeKey(items[i], mode, cal))
  }

  predicate NewestFirst(items: seq<MediaItem>) {
    forall i, j :: 0 <= i < j < |items| ==> items[i].time >= items[j].time
  }

  /** The list of the user interface is newest first; items of one instant stand by falling id. */
  lemma SortedIsNewestFirst(items: seq<MediaItem>)
    requires Sorted(items)
    ensures NewestFirst(items)
    ensures forall i, j :: 0 <= i < j < |items| && items[i].time == items[j].time ==> items[i].id > items[j].id
  {
  }

  /** Keys never get newer further down. */
  predicate Descending(ks: seq<SectionKey>, mode: GroupBy) {
    && (forall i :: 0 <= i < |ks| ==> OfMode(ks[i], mode))
    && (forall i, j :: 0 <= i < j < |ks| ==> !Newer(ks[j], ks[i]))
  }

  lemma KeysDescend(items: seq<MediaItem>, mode: GroupBy, cal: Calendar)
    requires NewestFirst(items) && Monotone(cal)
    ensures Descending(Keys(items, mode, cal), mode)
  {
    var ks := Keys(items, mode, cal);
    forall i, j | 0 <= i < j < |ks|
      ensures !Newer(ks[j], ks[i])
    {
      assert items[j].time <= items[i].time;
      assert !DateBefore(cal(items[i].time), cal(items[j].time));
    }
  }

  // ---- counts ----

  /** How many positions hold a member of the set. */
  function Count<T(==)>(xs: seq<T>, s: set<T>): (n: nat)
    ensures n <= |xs|
  {
    if xs == [] then 0 else Count(xs[..|xs| - 1], s) + (if xs[|xs| - 1] in s then 1 else 0)
  }

  lemma {:induction false} CountAdds<T>(xs: seq<T>, s: set<T>, x: T)
    requires x !in s
    ensures Count(xs, s + {x}) == Count(xs, s) + Count(xs, {x})
    decreases |xs|
  {
    if xs != [] {
      CountAdds(xs[..|xs| - 1], s, x);
    }
  }

  /** If the set's positions are a prefix, the count is the length of that prefix. */
  lemma {:induction false} CountOfPrefix<T>(xs: seq<T>, s: set<T>, i: nat)
    requires i < |xs| && forall a, b :: 0 <= a < b < |xs| && xs[b] in s ==> xs[a] in s
    ensures xs[i] in s <==> i < Count(xs, s)
    decreases |xs|
  {
    var init := xs[..|xs| - 1];
    if i < |init| {
      CountOfPrefix(init, s, i);
      if xs[|init|] in s {
        CountAll(init, s);
      }
    } else if xs[i] in s {
      CountAll(init, s);
    }
  }

  lemma {:induction false} CountAll<T>(xs: seq<T>, s: set<T>)
    requires forall i :: 0 <= i < |xs| ==> xs[i] in s
    ensures Count(xs, s) == |xs|
    decreases |xs|
  {
    if xs != [] {
      CountAll(xs[..|xs| - 1], s);
    }
  }

  lemma {:induction false} SamePositions<S, T>(xs: seq<S>, s: set<S>, ys: seq<T>, t: set<T>)
    requires |xs| == |ys| && forall i :: 0 <= i < |xs| ==> (xs[i] in s <==> ys[i] in t)
    ensures Count(xs, s) == Count(ys, t)
    decreases |xs|
  {
    if xs != [] {
      SamePositions(xs[..|xs| - 1], s, ys[..|ys| - 1], t);
    }
  }

  /** The section counts of a list. */
  ghost predicate CountsOf(counts: map<SectionKey, nat>, ks: seq<SectionKey>) {
    && (forall k :: k in counts <==> k in ks)
    && (forall k :: k in counts ==> counts[k] == Count(ks, {k}))
  }

  // ---- folding day counts ----

  /** What is left of a sum in 32 bits; a build with overflow checks stops instead. */
  function Wrapped(n: nat): nat {
    n % 0x1_0000_0000
  }

  /** One row of the database's count per calendar date. */
  datatype Group = Group(date: Date, count: nat)

  function Dates(items: seq<MediaItem>, cal: Calendar): (ds: seq<Date>)
    ensures |ds| == |items| && forall i :: 0 <= i < |items| ==> ds[i] == cal(items[i].time)
  {
    seq(|items|, i requires 0 <= i < |items| => cal(items[i].time))
  }

  /** Every date of the list once, with its number of items, cast to 32 bits. */
  ghost predicate IsGrouping(groups: seq<Group>, ds: seq<Date>) {
    && IsCounted(groups, ds)
    && (forall i :: 0 <= i < |groups| ==> groups[i].date in ds)
    && (forall d :: d in ds ==> exists i :: 0 <= i < |groups| && groups[i].date == d)
  }

  function Folded(groups: seq<Group>, mode: GroupBy): map<SectionKey, nat> {
    if groups == [] then map[]
    else
      var m, g := Folded(groups[..|groups| - 1], mode), groups[|groups| - 1];
      var k := KeyOfDate(g.date, mode);
      m[k := Wrapped((if k in m then m[k] else 0) + g.count)]
  }

  method CountsFromDateGroups(groups: seq<Group>, mode: GroupBy) returns (m: map<SectionKey, nat>)
    ensures m == Folded(groups, mode)
  {
    m := map[];
    for i := 0 to |groups|
      invariant m == Folded(groups[..i], mode)
    {
      assert groups[..i + 1][..i] == groups[..i];
      var key := KeyOfDate(groups[i].date, mode);
      if key !in m {
        m := m[key := 0];
      }
      m := m[key := Wrapped(m[key] + groups[i].count)];
    }
    assert groups[..|groups|] == groups;
  }

  /** The dates of the rows that fold into a section. */
  function DatesOf(groups: seq<Group>, k: SectionKey, mode: GroupBy): set<Date> {
    set g | g in groups && KeyOfDate(g.date, mode) == k :: g.date
  }

  /** Different dates, each with the number of its items. */
  ghost predicate IsCounted(groups: seq<Group>, ds: seq<Date>) {
    && (forall i, j :: 0 <= i < j < |groups| ==> groups[i].date != groups[j].date)
    && (forall i :: 0 <= i < |groups| ==> groups[i].count == Wrapped(Count(ds, {groups[i].date})))
  }

  /** The fold counts the dates of section `k`. */
  ghost predicate CountsSection(groups: seq<Group>, ds: seq<Date>, mode: GroupBy, k: SectionKey) {
    var m, dates := Folded(groups, mode), DatesOf(groups, k, mode);
    (k in m <==> dates != {}) && (k in m ==> m[k] == Wrapped(Count(ds, dates)))
  }

  lemma {:induction false} FoldedCounts(groups: seq<Group>, ds: seq<Date>, mode: GroupBy, k: SectionKey, n: nat)
    requires IsCounted(groups, ds) && n <= |groups|
    ensures CountsSection(groups[..n], ds, mode, k)
    decreases n
  {
    if n > 0 {
      FoldedCounts(groups, ds, mode, k, n - 1);
      NextDateIsNew(groups, ds, mode, k, n - 1);
      CountsSectionStep(groups[..n - 1], groups[n - 1], ds, mode, k);
      assert groups[..n] == groups[..n - 1] + [groups[n - 1]];
    }
  }

  lemma CountsSectionStep(groups: seq<Group>, g: Group, ds: seq<Date>, mode: GroupBy, k: SectionKey)
    requires CountsSection(groups, ds, mode, k)
    requires g.date !in DatesOf(groups, k, mode) && g.count == Wrapped(Count(ds, {g.date}))
    ensures CountsSection(groups + [g], ds, mode, k)
  {
    DatesOfAppend(groups, g, k, mode);
    FoldedAppend(groups, g, mode);
    if KeyOfDate(g.date, mode) == k {
      FoldedStep(Folded(groups, mode), ds, DatesOf(groups, k, mode), g, k);
    }
  }

  lemma FoldedAppend(groups: seq<Group>, g: Group, mode: GroupBy)
    ensures var m, k := Folded(groups, mode), KeyOfDate(g.date, mode);
            Folded(groups + [g], mode) == m[k := Wrapped((if k in m then m[k] else 0) + g.count)]
  {
    assert (groups + [g])[..|groups|] == groups;
  }

  lemma NextDateIsNew(groups: seq<Group>, ds: seq<Date>, mode: GroupBy, k: SectionKey, n: nat)
    requires IsCounted(groups, ds) && n < |groups|
    ensures groups[n].date !in DatesOf(groups[..n], k, mode)
    ensures groups[n].count == Wrapped(Count(ds, {groups[n].date}))
  {
  }

  /** Adding one more date to a section's count. */
  lemma FoldedStep(m: map<SectionKey, nat>, ds: seq<Date>, before: set<Date>, g: Group, k: SectionKey)
    requires g.date !in before && g.count == Wrapped(Count(ds, {g.date}))
    requires if k in m then m[k] == Wrapped(Count(ds, before)) else before == {}
    ensures Wrapped((if k in m then m[k] else 0) + g.count) == Wrapped(Count(ds, before + {g.date}))
  {
    CountAdds(ds, before, g.date);
    WrappedSum(Count(ds, before), Count(ds, {g.date}));
    if k !in m {
      CountEmpty(ds);
    }
  }

  lemma WrappedSum(a: nat, b: nat)
    ensures Wrapped(Wrapped(a) + Wrapped(b)) == Wrapped(a + b)
  {
  }

  lemma DatesOfAppend(groups: seq<Group>, g: Group, k: SectionKey, mode: GroupBy)
    ensures KeyOfDate(g.date, mode) != k ==> DatesOf(groups + [g], k, mode) == DatesOf(groups, k, mode)
    ensures KeyOfDate(g.date, mode) == k ==> DatesOf(groups + [g], k, mode) == DatesOf(groups, k, mode) + {g.date}
  {
    var all := groups + [g];
    assert forall h :: h in all <==> h in groups || h == g;
    if KeyOfDate(g.date, mode) == k {
      assert g in all && g.date in DatesOf(all, k, mode);
    }
  }

  lemma {:induction false} CountEmpty<T>(xs: seq<T>)
    ensures Count(xs, {}) == 0
    decreases |xs|
  {
    if xs != [] {
      CountEmpty(xs[..|xs| - 1]);
    }
  }

  /**
   Folding the database's day counts gives the counts of the sections of the list itself, modulo 32 bits; so it gives
   them exactly if no section has more items than a `u32` holds.
   */
  lemma FoldIsCountsOfListIff(groups: seq<Group>, items: seq<MediaItem>, mode: GroupBy, cal: Calendar)
    requires IsGrouping(groups, Dates(items, cal))
    ensures var m, ks := Folded(groups, mode), Keys(items, mode, cal);
            && (forall k :: k in m <==> k in ks)
            && (forall k :: k in m ==> m[k] == Wrapped(Count(ks, {k})))
            && (CountsOf(m, ks) <==> forall k :: k in ks ==> Count(ks, {k}) <= U32_MAX)
    ensures forall x :: x in items ==>
              var k := MakeKey(x, mode, cal);
              k in Folded(groups, mode)
              && Folded(groups, mode)[k] == Wrapped(|InPeriod(items, cal(x.time), mode, cal)|)
  {
    var m, ds, ks := Folded(groups, mode), Dates(items, cal), Keys(items, mode, cal);
    forall k
      ensures k in m <==> k in ks
      ensures k in m ==> m[k] == Wrapped(Count(ks, {k}))
    {
      FoldedCounts(groups, ds, mode, k, |groups|);
      assert groups[..|groups|] == groups;
      FoldedKey(groups, ds, ks, mode, k);
    }
    WrappedIsCountsOfIff(m, ks);
    forall x | x in items
      ensures var k := MakeKey(x, mode, cal);
              k in m && m[k] == Wrapped(|InPeriod(items, cal(x.time), mode, cal)|)
    {
      var i :| 0 <= i < |items| && items[i] == x;
      assert ks[i] in ks;
      CountIsInPeriod(items, x, mode, cal);
    }
  }

  lemma {:induction false} CountIsInPeriod(items: seq<MediaItem>, x: MediaItem, mode: GroupBy, cal: Calendar)
    ensures Count(Keys(items, mode, cal), {MakeKey(x, mode, cal)}) == |InPeriod(items, cal(x.time), mode, cal)|
    decreases |items|
  {
    if items != [] {
      var init, y := items[..|items| - 1], items[|items| - 1];
      CountIsInPeriod(init, x, mode, cal);
      KeyNamesItsPeriod(y, x, mode, cal);
      assert Keys(items, mode, cal)[..|items| - 1] == Keys(init, mode, cal);
    }
  }

  lemma WrappedIsCountsOfIff(m: map<SectionKey, nat>, ks: seq<SectionKey>)
    requires forall k :: k in m <==> k in ks
    requires forall k :: k in m ==> m[k] == Wrapped(Count(ks, {k}))
    ensures CountsOf(m, ks) <==> forall k :: k in ks ==> Count(ks, {k}) <= U32_MAX
  {
  }

  lemma FoldedKey(groups: seq<Group>, ds: seq<Date>, ks: seq<SectionKey>, mode: GroupBy, k: SectionKey)
    requires IsGrouping(groups, ds)
    requires |ks| == |ds| && forall i :: 0 <= i < |ks| ==> ks[i] == KeyOfDate(ds[i], mode)
    ensures DatesOf(groups, k, mode) != {} <==> k in ks
    ensures Count(ds, DatesOf(groups, k, mode)) == Count(ks, {k})
  {
    var dates := DatesOf(groups, k, mode);
    forall i | 0 <= i < |ds|
      ensures ds[i] in dates <==> ks[i] in {k}
    {
      assert ds[i] in ds;
    }
    if dates != {} {
      var d :| d in dates;
      assert d in ds;
    }
    SamePositions(ds, dates, ks, {k});
  }

  // ---- the section of an offset ----

  /** The keys of the counts, newest first. */
  ghost predicate IsOrder(order: seq<SectionKey>, counts: map<SectionKey, nat>) {
    && NoDuplicates(order)
    && (forall k :: k in order <==> k in counts)
    && (forall i, j :: 0 <= i < j < |order| ==> !Newer(order[j], order[i]))
  }

  function SaturatingAdd(a: nat, b: nat): nat {
    if a + b > U32_MAX then U32_MAX else a + b
  }

  lemma {:induction false} NewestExists(s: set<SectionKey>)
    requires s != {}
    ensures exists k :: k in s && forall j :: j in s ==> !Newer(j, k)
    decreases |s|
  {
    var x :| x in s;
    if s == {x} {
      assert forall j :: j in s ==> !Newer(j, x);
    } else {
      var rest := s - {x};
      assert rest != {} by {
        assert s == rest + {x};
      }
      NewestExists(rest);
      var k :| k in rest && forall j :: j in rest ==> !Newer(j, k);
      var top := if Newer(x, k) then x else k;
      assert forall j :: j in s ==> j == x || j in rest;
      assert top in s && forall j :: j in s ==> !Newer(j, top);
    }
  }

  method NewestFirstKeys(counts: map<SectionKey, nat>) returns (order: seq<SectionKey>)
    ensures IsOrder(order, counts)
  {
    order := [];
    var rest := counts.Keys;
    while rest != {}
      invariant NoDuplicates(order)
      invariant forall k :: k in counts <==> k in order || k in rest
      invariant forall k :: k in order ==> k !in rest
      invariant forall i, j :: 0 <= i < j < |order| ==> !Newer(order[j], order[i])
      invariant forall i, k :: 0 <= i < |order| && k in rest ==> !Newer(k, order[i])
      decreases |rest|
    {
      NewestExists(rest);
      var next :| next in rest && forall j :: j in rest ==> !Newer(j, next);
      order := order + [next];
      rest := rest - {next};
    }
  }

  /** The keys seen before position `i` of the order. */
  ghost function Done(order: seq<SectionKey>, i: nat): set<SectionKey>
    requires i <= |order|
  {
    set k | k in order[..i]
  }

  /** Which position of a list an offset stands for: past the end, or at the last `u32`, the last. */
  function Clamped(offset: nat, size: nat): (i: nat)
    requires size > 0
    ensures i < size
  {
    if offset < U32_MAX && offset < size then offset else size - 1
  }

  ghost predicate Descends(order: seq<SectionKey>, counts: map<SectionKey, nat>, ks: seq<SectionKey>, mode: GroupBy) {
    IsOrder(order, counts) && CountsOf(counts, ks) && Descending(ks, mode)
  }

  /** The positions of the sections already seen are a prefix of the list. */
  lemma DoneIsPrefix(order: seq<SectionKey>, counts: map<SectionKey, nat>, ks: seq<SectionKey>, mode: GroupBy,
                     i: nat, a: nat, b: nat)
    requires Descends(order, counts, ks, mode) && i <= |order| && a < b < |ks| && ks[b] in Done(order, i)
    ensures ks[a] in Done(order, i)
  {
    assert ks[a] in ks && ks[b] in ks;
    var p :| 0 <= p < |order| && order[p] == ks[a];
    var q :| 0 <= q < i && order[q] == ks[b];
    KeysOfOneModeCompare(ks[a], ks[b], mode);
    assert p < i;
    assert order[..i][p] == ks[a];
  }

  lemma DoneCounts(order: seq<SectionKey>, counts: map<SectionKey, nat>, ks: seq<SectionKey>, mode: GroupBy, i: nat,
                   at: nat)
    requires Descends(order, counts, ks, mode) && i <= |order| && at < |ks|
    ensures ks[at] in Done(order, i) <==> at < Count(ks, Done(order, i))
  {
    forall a, b | 0 <= a < b < |ks| && ks[b] in Done(order, i)
      ensures ks[a] in Done(order, i)
    {
      DoneIsPrefix(order, counts, ks, mode, i, a, b);
    }
    CountOfPrefix(ks, Done(order, i), at);
  }

  /** The scan of an order from position `i`, `acc` items into the list. */
  function Located(order: seq<SectionKey>, counts: map<SectionKey, nat>, offset: nat, i: nat, acc: nat):
    Option<SectionKey>
    requires i <= |order| && forall k :: k in order ==> k in counts
    decreases |order| - i
  {
    if i == |order| then (if order == [] then None else Some(order[|order| - 1]))
    else
      var upper := SaturatingAdd(acc, counts[order[i]]);
      if offset < upper then Some(order[i]) else Located(order, counts, offset, i + 1, upper)
  }

  method SectionForGlobalOffset(counts: map<SectionKey, nat>, offset: nat)
    returns (r: Option<SectionKey>, ghost order: seq<SectionKey>)
    ensures IsOrder(order, counts) && r == Located(order, counts, offset, 0, 0)
    ensures r.Some? <==> counts != map[]
    ensures r.Some? ==> r.value in counts
  {
    if counts == map[] {
      return None, [];
    }
    var ordered := NewestFirstKeys(counts);
    order := ordered;
    assert order != [] by {
      var k :| k in counts;
      assert k in order;
    }
    var acc, i := 0, 0;
    while i < |ordered|
      invariant 0 <= i <= |ordered|
      invariant Located(order, counts, offset, 0, 0) == Located(order, counts, offset, i, acc)
    {
      var upper := SaturatingAdd(acc, counts[ordered[i]]);
      if offset < upper {
        return Some(ordered[i]), order;
      }
      acc, i := upper, i + 1;
    }
    r := Some(ordered[|ordered| - 1]);
  }

  /** One more section of the order is exactly its count of positions. */
  lemma DoneStep(order: seq<SectionKey>, ks: seq<SectionKey>, i: nat)
    requires NoDuplicates(order) && i < |order|
    ensures order[i] !in Done(order, i) && Done(order, i + 1) == Done(order, i) + {order[i]}
    ensures Count(ks, Done(order, i + 1)) == Count(ks, Done(order, i)) + Count(ks, {order[i]})
  {
    assert order[..i + 1] == order[..i] + [order[i]];
    CountAdds(ks, Done(order, i), order[i]);
  }

  lemma {:induction false} LocatedFrom(order: seq<SectionKey>, counts: map<SectionKey, nat>, ks: seq<SectionKey>,
                                       mode: GroupBy, offset: nat, i: nat)
    requires Descends(order, counts, ks, mode) && ks != [] && offset <= U32_MAX && i <= |order|
    requires i > 0 ==> offset >= U32_MAX || offset >= Count(ks, Done(order, i))
    ensures Located(order, counts, offset, i, SaturatingAdd(Count(ks, Done(order, i)), 0))
         == Some(ks[Clamped(offset, |ks|)])
    decreases |order| - i
  {
    var at := Clamped(offset, |ks|);
    var acc := Count(ks, Done(order, i));
    if i == |order| {
      LastIsOldest(order, counts, ks, mode);
      CountAllKeys(order, counts, ks);
    } else {
      DoneStep(order, ks, i);
      DoneCounts(order, counts, ks, mode, i, at);
      DoneCounts(order, counts, ks, mode, i + 1, at);
      assert SaturatingAdd(SaturatingAdd(acc, 0), counts[order[i]])
          == SaturatingAdd(Count(ks, Done(order, i + 1)), 0);
      if offset < SaturatingAdd(SaturatingAdd(acc, 0), counts[order[i]]) {
        assert ks[at] == order[i];
      } else {
        LocatedFrom(order, counts, ks, mode, offset, i + 1);
      }
    }
  }

  lemma CountAllKeys(order: seq<SectionKey>, counts: map<SectionKey, nat>, ks: seq<SectionKey>)
    requires IsOrder(order, counts) && CountsOf(counts, ks)
    ensures Count(ks, Done(order, |order|)) == |ks|
  {
    assert order[..|order|] == order;
    assert forall i :: 0 <= i < |ks| ==> ks[i] in ks && ks[i] in order;
    CountAll(ks, Done(order, |order|));
  }

  function Sum(order: seq<SectionKey>, counts: map<SectionKey, nat>): nat
    requires forall k :: k in order ==> k in counts
  {
    if order == [] then 0 else Sum(order[..|order| - 1], counts) + counts[order[|order| - 1]]
  }

  lemma {:induction false} SumOfPrefix(order: seq<SectionKey>, counts: map<SectionKey, nat>, ks: seq<SectionKey>,
                                       i: nat)
    requires NoDuplicates(order) && (forall k :: k in order ==> k in counts) && CountsOf(counts, ks) && i <= |order|
    ensures Sum(order[..i], counts) == Count(ks, Done(order, i))
    decreases i
  {
    if i == 0 {
      assert Done(order, 0) == {};
      CountEmpty(ks);
    } else {
      SumOfPrefix(order, counts, ks, i - 1);
      DoneStep(order, ks, i - 1);
      assert order[..i][..i - 1] == order[..i - 1];
    }
  }

  /** The counts of all sections add up to the length of the list, in every mode. */
  lemma CountsSumToLength(order: seq<SectionKey>, counts: map<SectionKey, nat>, ks: seq<SectionKey>)
    requires IsOrder(order, counts) && CountsOf(counts, ks)
    ensures Sum(order, counts) == |ks|
  {
    SumOfPrefix(order, counts, ks, |order|);
    CountAllKeys(order, counts, ks);
    assert order[..|order|] == order;
  }

  lemma LastIsOldest(order: seq<SectionKey>, counts: map<SectionKey, nat>, ks: seq<SectionKey>, mode: GroupBy)
    requires Descends(order, counts, ks, mode) && ks != []
    ensures order != [] && order[|order| - 1] == ks[|ks| - 1]
  {
    var oldest := ks[|ks| - 1];
    assert oldest in ks;
    assert oldest in order;
    var last := order[|order| - 1];
    assert last in order;
    assert last in ks;
    var p :| 0 <= p < |ks| && ks[p] == last;
    var q :| 0 <= q < |order| && order[q] == oldest;
    KeysOfOneModeCompare(last, oldest, mode);
    assert !Newer(oldest, last) by {
      assert p == |ks| - 1 || !Newer(ks[|ks| - 1], ks[p]);
    }
    assert !Newer(order[|order| - 1], order[q]);
  }

  lemma EmptyIffNoMember<T>(s: seq<T>)
    ensures s == [] <==> forall x :: x in s ==> x in []
  {
    if s != [] {
      assert s[0] in s;
    }
  }

  /**
   * In a newest-first list the section found for an offset is the section of the item at that offset; past the end,
   * and at the largest offset a `u32` holds, it is the oldest section.
   */
  lemma OffsetLandsInItsSection(order: seq<SectionKey>, counts: map<SectionKey, nat>, items: seq<MediaItem>,
                                mode: GroupBy, cal: Calendar, offset: nat)
    requires Monotone(cal) && NewestFirst(items) && offset <= U32_MAX
    requires CountsOf(counts, Keys(items, mode, cal)) && IsOrder(order, counts)
    ensures items == [] ==> Located(order, counts, offset, 0, 0) == None
    ensures items != [] ==>
      var x := items[Clamped(offset, |items|)];
      && Located(order, counts, offset, 0, 0) == Some(MakeKey(x, mode, cal))
      && Names(MakeKey(x, mode, cal), cal(x.time), mode)
  {
    var ks := Keys(items, mode, cal);
    if items == [] {
      EmptyIffNoMember(order);
    } else {
      KeysDescend(items, mode, cal);
      CountEmpty(ks);
      assert Done(order, 0) == {};
      LocatedFrom(order, counts, ks, mode, offset, 0);
    }
  }

  // ---- grouping a loaded list ----

  datatype Section = Section(key: SectionKey, items: seq<MediaItem>)

  /** The different keys of a list, by first appearance. */
  function FirstSeen(ks: seq<SectionKey>): (fs: seq<SectionKey>)
    ensures NoDuplicates(fs) && forall k :: k in fs <==> k in ks
  {
    if ks == [] then []
    else
      var init, k := ks[..|ks| - 1], ks[|ks| - 1];
      assert ks == init + [k];
      if k in init then FirstSeen(init) else FirstSeen(init) + [k]
  }

  /** The items whose key is `k`, in list order. */
  function With(items: seq<MediaItem>, k: SectionKey, mode: GroupBy, cal: Calendar): seq<MediaItem> {
    if items == [] then []
    else
      var init, x := items[..|items| - 1], items[|items| - 1];
      With(init, k, mode, cal) + (if MakeKey(x, mode, cal) == k then [x] else [])
  }

  function Grouped(items: seq<MediaItem>, mode: GroupBy, cal: Calendar): seq<Section> {
    var fs := FirstSeen(Keys(items, mode, cal));
    seq(|fs|, i requires 0 <= i < |fs| => Section(fs[i], With(items, fs[i], mode, cal)))
  }

  lemma WithAppend(items: seq<MediaItem>, x: MediaItem, k: SectionKey, mode: GroupBy, cal: Calendar)
    ensures With(items + [x], k, mode, cal)
         == With(items, k, mode, cal) + (if MakeKey(x, mode, cal) == k then [x] else [])
  {
    assert (items + [x])[..|items|] == items;
  }

  lemma KeysAppend(items: seq<MediaItem>, x: MediaItem, mode: GroupBy, cal: Calendar)
    ensures Keys(items + [x], mode, cal) == Keys(items, mode, cal) + [MakeKey(x, mode, cal)]
    ensures FirstSeen(Keys(items + [x], mode, cal))
         == FirstSeen(Keys(items, mode, cal))
            + (if MakeKey(x, mode, cal) in Keys(items, mode, cal) then [] else [MakeKey(x, mode, cal)])
  {
    var ks, k := Keys(items, mode, cal), MakeKey(x, mode, cal);
    assert Keys(items + [x], mode, cal) == ks + [k];
    assert (ks + [k])[..|ks|] == ks;
  }

  /** An item of a known key extends the section of that key. */
  lemma GroupedExtends(items: seq<MediaItem>, x: MediaItem, mode: GroupBy, cal: Calendar, p: nat)
    requires p < |Grouped(items, mode, cal)| && Grouped(items, mode, cal)[p].key == MakeKey(x, mode, cal)
    ensures Grouped(items + [x], mode, cal)
         == Grouped(items, mode, cal)[p := Section(MakeKey(x, mode, cal), Grouped(items, mode, cal)[p].items + [x])]
  {
    var was, now := Grouped(items, mode, cal), Grouped(items + [x], mode, cal);
    KeysAppend(items, x, mode, cal);
    assert FirstSeen(Keys(items, mode, cal))[p] in FirstSeen(Keys(items, mode, cal));
    forall j | 0 <= j < |now|
      ensures now[j] == was[p := Section(MakeKey(x, mode, cal), was[p].items + [x])][j]
    {
      WithAppend(items, x, now[j].key, mode, cal);
    }
  }

  /** An item of a new key opens a new last section. */
  lemma GroupedOpens(items: seq<MediaItem>, x: MediaItem, mode: GroupBy, cal: Calendar)
    requires MakeKey(x, mode, cal) !in Keys(items, mode, cal)
    ensures Grouped(items + [x], mode, cal)
         == Grouped(items, mode, cal) + [Section(MakeKey(x, mode, cal), [x])]
  {
    var was, now, k := Grouped(items, mode, cal), Grouped(items + [x], mode, cal), MakeKey(x, mode, cal);
    KeysAppend(items, x, mode, cal);
    NoneWith(items, k, mode, cal);
    forall j | 0 <= j < |now|
      ensures now[j] == (was + [Section(k, [x])])[j]
    {
      WithAppend(items, x, now[j].key, mode, cal);
      assert j < |was| ==> was[j].key in FirstSeen(Keys(items, mode, cal));
    }
  }

  lemma {:induction false} NoneWith(items: seq<MediaItem>, k: SectionKey, mode: GroupBy, cal: Calendar)
    requires k !in Keys(items, mode, cal)
    ensures With(items, k, mode, cal) == []
    decreases |items|
  {
    if items != [] {
      var ks := Keys(items, mode, cal);
      assert ks[|items| - 1] in ks;
      assert Keys(items[..|items| - 1], mode, cal) == ks[..|items| - 1];
      NoneWith(items[..|items| - 1], k, mode, cal);
    }
  }

  /** The position table names the section of every key seen. */
  ghost predicate Indexes(positions: map<SectionKey, nat>, sections: seq<Section>, ks: seq<SectionKey>) {
    && (forall k :: k in positions <==> k in ks)
    && (forall k :: k in positions ==> positions[k] < |sections| && sections[positions[k]].key == k)
  }

  lemma IndexesKept(positions: map<SectionKey, nat>, sections: seq<Section>, ks: seq<SectionKey>, key: SectionKey,
                    s: Section)
    requires Indexes(positions, sections, ks) && key in positions && s.key == key
    ensures Indexes(positions, sections[positions[key] := s], ks + [key])
  {
  }

  lemma IndexesGrow(positions: map<SectionKey, nat>, sections: seq<Section>, ks: seq<SectionKey>, key: SectionKey,
                    s: Section)
    requires Indexes(positions, sections, ks) && key !in positions && s.key == key
    ensures Indexes(positions[key := |sections|], sections + [s], ks + [key])
  {
  }

  /**
   The sections of a list in terms of dates: each holds, in list order, all items of one period, and its key names
   that period; no two sections are of one period, no item is left out, and the sections stand in the order in which
   their first items come.
   */
  ghost predicate ArePeriods(sections: seq<Section>, items: seq<MediaItem>, mode: GroupBy, cal: Calendar) {
    && (forall i :: 0 <= i < |sections| ==> IsPeriod(sections[i], items, mode, cal))
    && (forall i, j :: 0 <= i < j < |sections| ==> sections[i].key != sections[j].key)
    && (forall x :: x in items ==> exists i :: 0 <= i < |sections| && Names(sections[i].key, cal(x.time), mode))
    && (forall i, j, n: nat ::
          0 <= i < j < |sections| && n < |items| && Names(sections[j].key, cal(items[n].time), mode)
          ==> ComesBefore(sections[i].key, items, n, mode, cal))
  }

  /** Some item before position `n` is in the section. */
  ghost predicate ComesBefore(k: SectionKey, items: seq<MediaItem>, n: nat, mode: GroupBy, cal: Calendar)
    requires n <= |items|
  {
    exists m :: 0 <= m < n && Names(k, cal(items[m].time), mode)
  }

  ghost predicate IsPeriod(s: Section, items: seq<MediaItem>, mode: GroupBy, cal: Calendar) {
    && s.items != []
    && s.items == InPeriod(items, cal(s.items[0].time), mode, cal)
    && forall x :: x in s.items ==> Names(s.key, cal(x.time), mode)
  }

  lemma SectionsArePeriods(items: seq<MediaItem>, mode: GroupBy, cal: Calendar)
    ensures ArePeriods(Grouped(items, mode, cal), items, mode, cal)
  {
    var sections, ks := Grouped(items, mode, cal), Keys(items, mode, cal);
    forall i | 0 <= i < |sections|
      ensures IsPeriod(sections[i], items, mode, cal)
    {
      assert FirstSeen(ks)[i] in FirstSeen(ks);
      SectionIsPeriod(items, sections[i].key, mode, cal);
    }
    forall x | x in items
      ensures exists i :: 0 <= i < |sections| && Names(sections[i].key, cal(x.time), mode)
    {
      var n :| 0 <= n < |items| && items[n] == x;
      assert ks[n] in ks;
      var i :| 0 <= i < |FirstSeen(ks)| && FirstSeen(ks)[i] == ks[n];
      KeyNamesItsPeriod(x, x, mode, cal);
      assert sections[i].key == MakeKey(x, mode, cal);
    }
    forall i, j, n: nat |
      0 <= i < j < |sections| && n < |items| && Names(sections[j].key, cal(items[n].time), mode)
      ensures ComesBefore(sections[i].key, items, n, mode, cal)
    {
      assert FirstSeen(ks)[j] in FirstSeen(ks);
      var p :| 0 <= p < |ks| && ks[p] == sections[j].key;
      KeyNamesItsPeriod(items[p], items[n], mode, cal);
      FirstSeenInOrder(ks, i, j, n);
      var m :| 0 <= m < n && ks[m] == FirstSeen(ks)[i];
      KeyNamesItsPeriod(items[m], items[m], mode, cal);
    }
  }

  lemma {:induction false} FirstSeenInOrder(ks: seq<SectionKey>, i: nat, j: nat, n: nat)
    requires i < j < |FirstSeen(ks)| && n < |ks| && ks[n] == FirstSeen(ks)[j]
    ensures exists m :: 0 <= m < n && ks[m] == FirstSeen(ks)[i]
    decreases |ks|
  {
    var init, k := ks[..|ks| - 1], ks[|ks| - 1];
    assert ks == init + [k];
    if k !in init && j == |FirstSeen(init)| {
      assert FirstSeen(init)[i] in FirstSeen(init);
      var m :| 0 <= m < |init| && init[m] == FirstSeen(init)[i];
    } else {
      assert FirstSeen(init)[j] in FirstSeen(init);
      var p: nat :| p < |init| && init[p] == FirstSeen(init)[j];
      FirstSeenInOrder(init, i, j, if n < |init| then n else p);
    }
  }

  lemma SectionIsPeriod(items: seq<MediaItem>, k: SectionKey, mode: GroupBy, cal: Calendar)
    requires k in Keys(items, mode, cal)
    ensures IsPeriod(Section(k, With(items, k, mode, cal)), items, mode, cal)
  {
    var ks := Keys(items, mode, cal);
    var n :| 0 <= n < |ks| && ks[n] == k;
    WithIsInPeriod(items, items[n], mode, cal);
    forall x | x in With(items, k, mode, cal)
      ensures Names(k, cal(x.time), mode)
      ensures InPeriod(items, cal(x.time), mode, cal) == With(items, k, mode, cal)
    {
      WithHasKey(items, k, mode, cal, x);
      KeyNamesItsPeriod(x, x, mode, cal);
      WithIsInPeriod(items, x, mode, cal);
    }
    WithHolds(items, n, mode, cal);
  }

  lemma {:induction false} WithIsInPeriod(items: seq<MediaItem>, x: MediaItem, mode: GroupBy, cal: Calendar)
    ensures With(items, MakeKey(x, mode, cal), mode, cal) == InPeriod(items, cal(x.time), mode, cal)
    decreases |items|
  {
    if items != [] {
      WithIsInPeriod(items[..|items| - 1], x, mode, cal);
      KeyNamesItsPeriod(items[|items| - 1], x, mode, cal);
    }
  }

  lemma {:induction false} WithHolds(items: seq<MediaItem>, n: nat, mode: GroupBy, cal: Calendar)
    requires n < |items|
    ensures items[n] in With(items, MakeKey(items[n], mode, cal), mode, cal)
    decreases |items|
  {
    if n < |items| - 1 {
      WithHolds(items[..|items| - 1], n, mode, cal);
    }
  }

  method GroupItems(items: seq<MediaItem>, mode: GroupBy, cal: Calendar) returns (sections: seq<Section>)
    ensures sections == Grouped(items, mode, cal)
    ensures ArePeriods(sections, items, mode, cal)
  {
    sections := [];
    var positions: map<SectionKey, nat> := map[];
    for n := 0 to |items|
      invariant sections == Grouped(items[..n], mode, cal)
      invariant Indexes(positions, sections, Keys(items[..n], mode, cal))
    {
      var key := MakeKey(items[n], mode, cal);
      assert items[..n + 1] == items[..n] + [items[n]];
      assert Keys(items[..n + 1], mode, cal) == Keys(items[..n], mode, cal) + [key] by {
        KeysAppend(items[..n], items[n], mode, cal);
      }
      if key in positions {
        var idx := positions[key];
        GroupedExtends(items[..n], items[n], mode, cal, idx);
        IndexesKept(positions, sections, Keys(items[..n], mode, cal), key,
                    Section(key, sections[idx].items + [items[n]]));
        sections := sections[idx := Section(key, sections[idx].items + [items[n]])];
      } else {
        GroupedOpens(items[..n], items[n], mode, cal);
        IndexesGrow(positions, sections, Keys(items[..n], mode, cal), key, Section(key, [items[n]]));
        positions := positions[key := |sections|];
        sections := sections + [Section(key, [items[n]])];
      }
    }
    assert items[..|items|] == items;
    SectionsArePeriods(items, mode, cal);
  }

  /** Equal keys stand together. */
  predicate Clustered(ks: seq<SectionKey>) {
    forall i, j, m :: 0 <= i < j < m < |ks| && ks[i] == ks[m] ==> ks[j] == ks[i]
  }

  function Flat(sections: seq<Section>): seq<MediaItem> {
    if sections == [] then []
    else Flat(sections[..|sections| - 1]) + sections[|sections| - 1].items
  }

  lemma {:induction false} LastSeen(ks: seq<SectionKey>)
    requires Clustered(ks) && ks != []
    ensures FirstSeen(ks)[|FirstSeen(ks)| - 1] == ks[|ks| - 1]
    decreases |ks|
  {
    var init, k := ks[..|ks| - 1], ks[|ks| - 1];
    if k in init {
      LastSeen(init);
      var i :| 0 <= i < |init| && init[i] == k;
      assert init[|init| - 1] == k;
    }
  }

  /** In a clustered list the next item belongs to the last section or opens a new one. */
  lemma FlatGrows(items: seq<MediaItem>, x: MediaItem, mode: GroupBy, cal: Calendar)
    requires Clustered(Keys(items + [x], mode, cal)) && Flat(Grouped(items, mode, cal)) == items
    ensures Flat(Grouped(items + [x], mode, cal)) == items + [x]
  {
    var was, ks, k := Grouped(items, mode, cal), Keys(items, mode, cal), MakeKey(x, mode, cal);
    if k in ks {
      var p := |was| - 1;
      assert p >= 0 && was[p].key == k by {
        KeysAppend(items, x, mode, cal);
        ClusteredLast(ks, k);
      }
      GroupedExtends(items, x, mode, cal, p);
      FlatOfLast(was, Section(k, was[p].items + [x]));
    } else {
      GroupedOpens(items, x, mode, cal);
      assert (was + [Section(k, [x])])[..|was|] == was;
    }
  }

  lemma ClusteredLast(ks: seq<SectionKey>, k: SectionKey)
    requires Clustered(ks + [k]) && k in ks
    ensures FirstSeen(ks) != [] && FirstSeen(ks)[|FirstSeen(ks)| - 1] == k
  {
    var all := ks + [k];
    assert forall i :: 0 <= i < |ks| ==> all[i] == ks[i];
    assert Clustered(ks);
    var i :| 0 <= i < |ks| && ks[i] == k;
    assert all[i] == all[|ks|];
    assert k in FirstSeen(ks);
    LastSeen(ks);
  }

  lemma {:induction false} FlatOfClustered(items: seq<MediaItem>, mode: GroupBy, cal: Calendar)
    requires Clustered(Keys(items, mode, cal))
    ensures Flat(Grouped(items, mode, cal)) == items
    decreases |items|
  {
    if items == [] {
      assert Grouped(items, mode, cal) == [];
    } else {
      var init, x := items[..|items| - 1], items[|items| - 1];
      assert init + [x] == items;
      ClusteredPrefix(init, x, mode, cal);
      FlatOfClustered(init, mode, cal);
      FlatGrows(init, x, mode, cal);
    }
  }

  lemma ClusteredPrefix(items: seq<MediaItem>, x: MediaItem, mode: GroupBy, cal: Calendar)
    requires Clustered(Keys(items + [x], mode, cal))
    ensures Clustered(Keys(items, mode, cal))
  {
    var ks, all := Keys(items, mode, cal), Keys(items + [x], mode, cal);
    assert forall i :: 0 <= i < |ks| ==> all[i] == ks[i];
  }

  lemma FlatOfLast(sections: seq<Section>, last: Section)
    requires sections != []
    ensures Flat(sections[|sections| - 1 := last]) == Flat(sections[..|sections| - 1]) + last.items
  {
    assert sections[|sections| - 1 := last][..|sections| - 1] == sections[..|sections| - 1];
  }

  /** Sections with different keys, each holding items of its own key only, lay out a clustered list. */
  lemma {:induction false} FlatIsClustered(sections: seq<Section>, mode: GroupBy, cal: Calendar)
    requires forall i, j :: 0 <= i < j < |sections| ==> sections[i].key != sections[j].key
    requires forall i, x :: 0 <= i < |sections| && x in sections[i].items ==> MakeKey(x, mode, cal) == sections[i].key
    ensures Clustered(Keys(Flat(sections), mode, cal))
    ensures forall x :: x in Flat(sections) ==>
      exists i :: 0 <= i < |sections| && MakeKey(x, mode, cal) == sections[i].key
    decreases |sections|
  {
    if sections == [] {
      return;
    }
    var init, last := sections[..|sections| - 1], sections[|sections| - 1];
    FlatIsClustered(init, mode, cal);
    var front := Flat(init);
    forall x | x in front + last.items
      ensures exists i :: 0 <= i < |sections| && MakeKey(x, mode, cal) == sections[i].key
    {
      if x in front {
        var i :| 0 <= i < |init| && MakeKey(x, mode, cal) == init[i].key;
        assert sections[i].key == init[i].key;
      } else {
        assert sections[|sections| - 1] == last;
      }
    }
    forall a, b | 0 <= a < |front| && 0 <= b < |last.items|
      ensures MakeKey(front[a], mode, cal) != MakeKey(last.items[b], mode, cal)
    {
      assert front[a] in front && last.items[b] in last.items;
    }
    ClusteredAppend(front, last.items, mode, cal);
  }

  lemma ClusteredAppend(xs: seq<MediaItem>, ys: seq<MediaItem>, mode: GroupBy, cal: Calendar)
    requires Clustered(Keys(xs, mode, cal))
    requires forall a, b :: 0 <= a < |xs| && 0 <= b < |ys| ==> MakeKey(xs[a], mode, cal) != MakeKey(ys[b], mode, cal)
    requires forall a, b :: 0 <= a < b < |ys| ==> MakeKey(ys[a], mode, cal) == MakeKey(ys[b], mode, cal)
    ensures Clustered(Keys(xs + ys, mode, cal))
  {
    var ks, all := Keys(xs, mode, cal), Keys(xs + ys, mode, cal);
    assert forall i :: 0 <= i < |xs| ==> all[i] == ks[i];
    assert forall i :: |xs| <= i < |all| ==> all[i] == MakeKey(ys[i - |xs|], mode, cal);
  }

  lemma {:induction false} WithHasKey(items: seq<MediaItem>, k: SectionKey, mode: GroupBy, cal: Calendar, x: MediaItem)
    requires x in With(items, k, mode, cal)
    ensures MakeKey(x, mode, cal) == k
    decreases |items|
  {
    var init := items[..|items| - 1];
    if x in With(init, k, mode, cal) {
      WithHasKey(init, k, mode, cal, x);
    }
  }

  /** Laid out one after the other, the sections are the list itself exactly if equal keys stand together in it. */
  lemma SectionsAreTheListIffClustered(items: seq<MediaItem>, mode: GroupBy, cal: Calendar)
    ensures Flat(Grouped(items, mode, cal)) == items <==> Clustered(Keys(items, mode, cal))
  {
    var sections := Grouped(items, mode, cal);
    if Clustered(Keys(items, mode, cal)) {
      FlatOfClustered(items, mode, cal);
    }
    forall i, x | 0 <= i < |sections| && x in sections[i].items
      ensures MakeKey(x, mode, cal) == sections[i].key
    {
      WithHasKey(items, sections[i].key, mode, cal, x);
    }
    FlatIsClustered(sections, mode, cal);
  }

  /** So a newest-first list is shown in its own order, whatever the mode. */
  lemma NewestFirstIsClustered(items: seq<MediaItem>, mode: GroupBy, cal: Calendar)
    requires NewestFirst(items) && Monotone(cal)
    ensures Flat(Grouped(items, mode, cal)) == items
  {
    var ks := Keys(items, mode, cal);
    KeysDescend(items, mode, cal);
    forall i, j, m | 0 <= i < j < m < |ks| && ks[i] == ks[m]
      ensures ks[j] == ks[i]
    {
      KeysOfOneModeCompare(ks[i], ks[j], mode);
    }
    SectionsAreTheListIffClustered(items, mode, cal);
  }
}
