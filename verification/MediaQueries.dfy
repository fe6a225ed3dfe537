/**
 The cursor queries of the library: rank, keyset seek, page and batch rank. A query's filter is applied
 beforehand, so `rows` is the set of rows one fixed filter selects; ids are unique. Times are whole seconds.
 */
module MediaQueries {
  import opened Basics
  import opened MediaOrder

  lemma OrderExists(rows: set<MediaItem>)
    requires DistinctIds(rows)
    ensures exists s: seq<MediaItem> :: Sorted(s) && Elements(s) == rows
    decreases |rows|
  {
    if rows == {} {
      assert Sorted([]) && Elements([]) == rows;
    } else {
      var x :| x in rows;
      OrderExists(rows - {x});
      var s: seq<MediaItem> :| Sorted(s) && Elements(s) == rows - {x};
      forall y | y in s
        ensures y.id != x.id
      {
        assert y in Elements(s);
      }
      InsertIsSorted(s, x);
      InsertAddsOne(s, x);
      assert Elements(Insert(s, x)) == rows;
    }
  }

  /** `ORDER BY sort DESC, id DESC`. */
  ghost function Ranked(rows: set<MediaItem>): (s: seq<MediaItem>)
    requires DistinctIds(rows)
    ensures Sorted(s) && Elements(s) == rows
  {
    OrderExists(rows);
    var s: seq<MediaItem> :| Sorted(s) && Elements(s) == rows;
    s
  }

  function Reversed(s: seq<MediaItem>): (r: seq<MediaItem>)
    ensures |r| == |s| && forall i :: 0 <= i < |s| ==> r[i] == s[|s| - 1 - i]
  {
    seq(|s|, i requires 0 <= i < |s| => s[|s| - 1 - i])
  }

  /** `LIMIT 1 OFFSET k`. */
  function Nth(s: seq<MediaItem>, k: nat): Option<MediaItem> {
    if k < |s| then Some(s[k]) else None
  }

  // ---- the queries ----

  /** Rows with `sort >= time AND (sort > time OR id > id)`. */
  function Ahead(rows: set<MediaItem>, time: int, id: int): set<MediaItem> {
    set r | r in rows && r.time >= time && (r.time > time || r.id > id)
  }

  /** Rows with `sort <= time AND (sort < time OR id < id)`. */
  function Behind(rows: set<MediaItem>, time: int, id: int): set<MediaItem> {
    set r | r in rows && r.time <= time && (r.time < time || r.id < id)
  }

  function RankBefore(rows: set<MediaItem>, time: int, id: int): nat {
    |Ahead(rows, time, id)|
  }

  predicate HasId(rows: set<MediaItem>, id: int) {
    exists r :: r in rows && r.id == id
  }

  ghost function RowOf(rows: set<MediaItem>, id: int): (r: MediaItem)
    requires HasId(rows, id)
    ensures r in rows && r.id == id
  {
    var r :| r in rows && r.id == id;
    r
  }

  /** The row `delta` places further on, found without ranking the whole result. */
  ghost function Seek(rows: set<MediaItem>, id: int, delta: int): Option<MediaItem>
    requires DistinctIds(rows)
  {
    if delta == 0 || !HasId(rows, id) then None
    else
      var time := RowOf(rows, id).time;
      if delta > 0 then Nth(Ranked(Behind(rows, time, id)), delta - 1)
      else Nth(Reversed(Ranked(Ahead(rows, time, id))), -delta - 1)
  }

  /** One-based rank and total, or nothing when the row is not in the result. */
  ghost function Position(rows: set<MediaItem>, id: int): Option<(nat, nat)> {
    if HasId(rows, id) then Some((RankBefore(rows, RowOf(rows, id).time, id) + 1, |rows|)) else None
  }

  /** `LIMIT limit OFFSET offset`. */
  ghost function Page(rows: set<MediaItem>, offset: nat, limit: nat): seq<MediaItem>
    requires DistinctIds(rows)
  {
    var s := Ranked(rows);
    if offset >= |s| then [] else if offset + limit >= |s| then s[offset..] else s[offset..offset + limit]
  }

  // ---- they all walk one order ----

  lemma RowOfRanked(rows: set<MediaItem>, i: nat)
    requires DistinctIds(rows) && i < |Ranked(rows)|
    ensures HasId(rows, Ranked(rows)[i].id) && RowOf(rows, Ranked(rows)[i].id) == Ranked(rows)[i]
  {
    assert Ranked(rows)[i] in Elements(Ranked(rows));
  }

  /** The rows ahead of the i-th are the first i, and the rows behind it are those after it. */
  lemma SplitAt(rows: set<MediaItem>, i: nat)
    requires DistinctIds(rows) && i < |Ranked(rows)|
    ensures var s := Ranked(rows);
            && Ranked(Ahead(rows, s[i].time, s[i].id)) == s[..i]
            && Ranked(Behind(rows, s[i].time, s[i].id)) == s[i + 1..]
  {
    var s := Ranked(rows);
    var x := s[i];
    forall r
      ensures r in s[..i] <==> r in Ahead(rows, x.time, x.id)
      ensures r in s[i + 1..] <==> r in Behind(rows, x.time, x.id)
    {
      if r in rows {
        assert r in Elements(s);
        var k :| 0 <= k < |s| && s[k] == r;
        assert k < i ==> s[..i][k] == r;
        assert k > i ==> s[i + 1..][k - i - 1] == r;
      } else {
        assert r !in Elements(s);
        assert r !in s[..i] && r !in s[i + 1..];
      }
    }
    assert Elements(s[..i]) == Ahead(rows, x.time, x.id);
    assert Elements(s[i + 1..]) == Behind(rows, x.time, x.id);
    SortedIsUnique(Ranked(Ahead(rows, x.time, x.id)), s[..i]);
    SortedIsUnique(Ranked(Behind(rows, x.time, x.id)), s[i + 1..]);
  }

  /** The rank a COUNT query reports is the row's index. */
  lemma RankIsIndex(rows: set<MediaItem>, i: nat)
    requires DistinctIds(rows) && i < |Ranked(rows)|
    ensures RankBefore(rows, Ranked(rows)[i].time, Ranked(rows)[i].id) == i
    ensures Position(rows, Ranked(rows)[i].id) == Some((i + 1, |Ranked(rows)|))
  {
    var s := Ranked(rows);
    SplitAt(rows, i);
    SortedHasNoRepeats(s[..i]);
    SortedHasNoRepeats(s);
    RowOfRanked(rows, i);
  }

  /** A seek by `delta` lands `delta` places further in the same order, or nowhere. */
  lemma SeekIsOffset(rows: set<MediaItem>, i: nat, delta: int)
    requires DistinctIds(rows) && i < |Ranked(rows)|
    ensures var s := Ranked(rows);
            Seek(rows, s[i].id, delta) == if delta != 0 && 0 <= i + delta < |s| then Some(s[i + delta]) else None
  {
    SplitAt(rows, i);
    RowOfRanked(rows, i);
  }

  /** Seeking there and back returns to the start. */
  lemma SeekBackReturns(rows: set<MediaItem>, id: int, delta: int)
    requires DistinctIds(rows) && Seek(rows, id, delta).Some?
    ensures HasId(rows, id) && Seek(rows, Seek(rows, id, delta).value.id, -delta) == Some(RowOf(rows, id))
  {
    var s := Ranked(rows);
    assert RowOf(rows, id) in Elements(s);
    var i: nat :| i < |s| && s[i] == RowOf(rows, id);
    SeekIsOffset(rows, i, delta);
    SeekIsOffset(rows, i + delta, -delta);
  }

  /** Two seeks in a row add up whenever the first one lands. */
  lemma SeeksAdd(rows: set<MediaItem>, i: nat, d: int, e: int)
    requires DistinctIds(rows) && i < |Ranked(rows)| && d != 0 && e != 0 && d + e != 0
    requires 0 <= i + d < |Ranked(rows)|
    ensures Seek(rows, Ranked(rows)[i + d].id, e) == Seek(rows, Ranked(rows)[i].id, d + e)
  {
    SeekIsOffset(rows, i + d, e);
    SeekIsOffset(rows, i, d + e);
  }

  /** The first `n` pages of `limit` rows, one after the other. */
  ghost function FirstPages(rows: set<MediaItem>, limit: nat, n: nat): seq<MediaItem>
    requires DistinctIds(rows)
  {
    if n == 0 then [] else FirstPages(rows, limit, n - 1) + Page(rows, (n - 1) * limit, limit)
  }

  /** Paging through with any page size shows the order itself: no row is skipped and none is shown twice. */
  lemma {:induction false} PagesConcatenate(rows: set<MediaItem>, limit: nat, n: nat)
    requires DistinctIds(rows)
    ensures FirstPages(rows, limit, n) ==
            if n * limit <= |Ranked(rows)| then Ranked(rows)[..n * limit] else Ranked(rows)
    decreases n
  {
    if n > 0 {
      PagesConcatenate(rows, limit, n - 1);
      var from := (n - 1) * limit;
      assert n * limit == from + limit;
      PageExtends(rows, from, limit);
    }
  }

  lemma PageExtends(rows: set<MediaItem>, from: nat, limit: nat)
    requires DistinctIds(rows)
    ensures var s := Ranked(rows);
            (if from <= |s| then s[..from] else s) + Page(rows, from, limit) ==
            if from + limit <= |s| then s[..from + limit] else s
  {
  }

  /** A position as the 32-bit counter of the walk shows it. */
  function Shown(i: nat): nat {
    if i <= U32_MAX then i else U32_MAX
  }

  predicate IdsDiffer(cursor: seq<MediaItem>) {
    forall i, j :: 0 <= i < j < |cursor| ==> cursor[i].id != cursor[j].id
  }

  /** The ranks of exactly the wanted rows among the first `n`. */
  ghost predicate RanksFirst(ranks: map<int, nat>, cursor: seq<MediaItem>, n: nat, wanted: set<int>) {
    && n <= |cursor|
    && (forall id :: id in ranks ==> id in wanted && exists i :: 0 <= i < n && cursor[i].id == id)
    && (forall i :: 0 <= i < n && cursor[i].id in wanted ==>
          cursor[i].id in ranks && ranks[cursor[i].id] == Shown(i))
  }

  lemma RanksNext(ranks: map<int, nat>, cursor: seq<MediaItem>, n: nat, wanted: set<int>)
    requires IdsDiffer(cursor) && n < |cursor| && RanksFirst(ranks, cursor, n, wanted)
    ensures var id := cursor[n].id;
            RanksFirst(if id in wanted then ranks[id := Shown(n)] else ranks, cursor, n + 1, wanted)
  {
  }

  /** Once every wanted id is ranked, the rest of the cursor has none. */
  lemma RanksAll(ranks: map<int, nat>, cursor: seq<MediaItem>, n: nat, wanted: set<int>)
    requires IdsDiffer(cursor) && RanksFirst(ranks, cursor, n, wanted) && |ranks| == |wanted|
    ensures RanksFirst(ranks, cursor, |cursor|, wanted)
  {
    assert ranks.Keys == wanted by {
      assert forall id :: id in ranks.Keys ==> id in ranks && id in wanted;
      SubsetOfSameSize(ranks.Keys, wanted);
    }
    forall i | n <= i < |cursor|
      ensures cursor[i].id !in ranks
    {
    }
  }

  /** The walk of the batch rank: over the cursor once, stopping after the last wanted row. */
  method WalkRanks(cursor: seq<MediaItem>, ids: seq<int>) returns (ranks: map<int, nat>)
    requires IdsDiffer(cursor)
    ensures forall id :: id in ranks <==> id in ids && exists i :: 0 <= i < |cursor| && cursor[i].id == id
    ensures forall i :: 0 <= i < |cursor| && cursor[i].id in ids ==> ranks[cursor[i].id] == Shown(i)
  {
    ranks := map[];
    if ids == [] {
      return;
    }
    var wanted := set id | id in ids;
    var rank := 0;
    for n := 0 to |cursor|
      invariant rank == Shown(n)
      invariant RanksFirst(ranks, cursor, n, wanted)
    {
      var id := cursor[n].id;
      RanksNext(ranks, cursor, n, wanted);
      if id in wanted {
        ranks := ranks[id := rank];
        if |ranks| == |wanted| {
          RanksAll(ranks, cursor, n + 1, wanted);
          return;
        }
      }
      rank := if rank < U32_MAX then rank + 1 else rank;
    }
  }

  lemma RankedIdsDiffer(rows: set<MediaItem>)
    requires DistinctIds(rows)
    ensures IdsDiffer(Ranked(rows))
  {
    var s := Ranked(rows);
    forall i, j | 0 <= i < j < |s|
      ensures s[i].id != s[j].id
    {
      assert s[i] in Elements(s) && s[j] in Elements(s) && Before(s[i], s[j]);
    }
  }

  /** The batch rank agrees with one COUNT query per id, up to the range of its counter. */
  method RanksInOrder(cursor: seq<MediaItem>, ids: seq<int>, ghost rows: set<MediaItem>) returns (ranks: map<int, nat>)
    requires DistinctIds(rows) && cursor == Ranked(rows)
    ensures forall id :: id in ranks <==> id in ids && HasId(rows, id)
    ensures forall id :: id in ranks ==>
              var count := RankBefore(rows, RowOf(rows, id).time, id);
              ranks[id] == if count < 0x1_0000_0000 then count else 0xffff_ffff
  {
    RankedIdsDiffer(rows);
    ranks := WalkRanks(cursor, ids);
    forall i | 0 <= i < |cursor|
      ensures HasId(rows, cursor[i].id) && RowOf(rows, cursor[i].id) == cursor[i]
      ensures RankBefore(rows, cursor[i].time, cursor[i].id) == i
    {
      RankIsIndex(rows, i);
      RowOfRanked(rows, i);
    }
    forall id | HasId(rows, id)
      ensures exists i :: 0 <= i < |cursor| && cursor[i].id == id
    {
      assert RowOf(rows, id) in Elements(cursor);
    }
  }
}
