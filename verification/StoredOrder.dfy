/**
 Two orders that are meant to be one: the grids compare sort times to the nanosecond, while the database orders by
 whole seconds. Both then compare ids.
 */
module StoredOrder {
  import opened MediaOrder
  import opened MediaQueries

  const NANOS := 1_000_000_000

  /** The second a time falls into, for times before the epoch as well. */
  function Seconds(time: int): int {
    time / NANOS
  }

  /** The row with the sort key of the database. */
  function Stored(x: MediaItem): MediaItem {
    x.(time := Seconds(x.time))
  }

  predicate StoredBefore(a: MediaItem, b: MediaItem) {
    Before(Stored(a), Stored(b))
  }

  predicate StoredSorted(s: seq<MediaItem>) {
    forall i, j :: 0 <= i < j < |s| ==> StoredBefore(s[i], s[j])
  }

  /** Within one second, a later row never has the smaller id. */
  predicate NoInversion(rows: set<MediaItem>) {
    forall a, b :: a in rows && b in rows && Seconds(a.time) == Seconds(b.time) && a.time > b.time ==> a.id > b.id
  }

  lemma SecondsAreMonotone(t: int, u: int)
    requires t <= u
    ensures Seconds(t) <= Seconds(u)
  {
  }

  /** Two rows compare alike in both orders, unless they share a second and their ids run against their times. */
  lemma PairAgrees(a: MediaItem, b: MediaItem)
    requires a.id != b.id
    ensures Before(a, b) != StoredBefore(a, b) <==>
            Seconds(a.time) == Seconds(b.time) && a.time != b.time && (a.time > b.time) != (a.id > b.id)
  {
    if a.time <= b.time {
      SecondsAreMonotone(a.time, b.time);
    } else {
      SecondsAreMonotone(b.time, a.time);
    }
  }

  /** The two orders agree on a set of rows exactly if it has no inversion. */
  lemma OrdersAgreeIff(rows: set<MediaItem>)
    requires DistinctIds(rows)
    ensures (forall a, b :: a in rows && b in rows ==> (Before(a, b) <==> StoredBefore(a, b))) <==> NoInversion(rows)
  {
    forall a, b | a in rows && b in rows && a != b
      ensures Before(a, b) != StoredBefore(a, b) <==>
              Seconds(a.time) == Seconds(b.time) && a.time != b.time && (a.time > b.time) != (a.id > b.id)
    {
      PairAgrees(a, b);
    }
  }

  /** A grid shows its rows in database order exactly if they have no inversion. */
  lemma GridShowsDatabaseOrderIff(grid: seq<MediaItem>, db: seq<MediaItem>)
    requires Sorted(grid) && StoredSorted(db) && Elements(grid) == Elements(db) && DistinctIds(Elements(db))
    ensures grid == db <==> NoInversion(Elements(db))
  {
    OrdersAgreeIff(Elements(db));
    if NoInversion(Elements(db)) {
      forall i, j | 0 <= i < j < |db|
        ensures Before(db[i], db[j])
      {
        assert db[i] in Elements(db) && db[j] in Elements(db);
      }
      SortedIsUnique(grid, db);
    } else if grid == db {
      EqualListsHaveNoInversion(db);
    }
  }

  lemma EqualListsHaveNoInversion(s: seq<MediaItem>)
    requires Sorted(s) && StoredSorted(s)
    ensures NoInversion(Elements(s))
  {
    forall a, b | a in Elements(s) && b in Elements(s) && Seconds(a.time) == Seconds(b.time) && a.time > b.time
      ensures a.id > b.id
    {
      var i :| 0 <= i < |s| && s[i] == a;
      var j :| 0 <= j < |s| && s[j] == b;
      assert i != j;
      assert j < i ==> Before(s[j], s[i]);
      assert i < j ==> StoredBefore(s[i], s[j]);
    }
  }

  /** Rows with whole-second times, such as all rows with a capture time, have no inversion. */
  lemma WholeSecondsAgree(rows: set<MediaItem>)
    requires forall x :: x in rows ==> x.time % NANOS == 0
    ensures NoInversion(rows)
  {
    forall a, b | a in rows && b in rows && Seconds(a.time) == Seconds(b.time)
      ensures a.time == b.time
    {
      assert a.time == NANOS * (a.time / NANOS) + a.time % NANOS;
      assert b.time == NANOS * (b.time / NANOS) + b.time % NANOS;
    }
  }

  /** Two files of one second, the one modified later indexed first: grid and database show them in opposite orders. */
  lemma InvertedPair(later: MediaItem, earlier: MediaItem)
    requires later.time == 1_500_000_000 && earlier.time == 1_200_000_000 && later.id == 1 && earlier.id == 2
    ensures Sorted([later, earlier]) && StoredSorted([earlier, later]) && !NoInversion({later, earlier})
  {
    assert later in {later, earlier} && earlier in {later, earlier};
  }

  /** The rows as the queries see them. */
  function StoredRows(rows: set<MediaItem>): set<MediaItem> {
    set x | x in rows :: Stored(x)
  }

  function StoredList(s: seq<MediaItem>): (t: seq<MediaItem>)
    ensures |t| == |s| && forall i :: 0 <= i < |s| ==> t[i] == Stored(s[i])
  {
    seq(|s|, i requires 0 <= i < |s| => Stored(s[i]))
  }

  /** The order all queries walk is the grid's order of the same rows, exactly if these have no inversion. */
  lemma QueriesWalkTheGridIff(grid: seq<MediaItem>)
    requires Sorted(grid) && DistinctIds(Elements(grid))
    ensures DistinctIds(StoredRows(Elements(grid)))
    ensures Ranked(StoredRows(Elements(grid))) == StoredList(grid) <==> NoInversion(Elements(grid))
  {
    var rows := StoredRows(Elements(grid));
    assert Elements(StoredList(grid)) == rows by {
      forall y
        ensures y in StoredList(grid) <==> y in rows
      {
        if y in rows {
          var x :| x in Elements(grid) && y == Stored(x);
          var i :| 0 <= i < |grid| && grid[i] == x;
          assert StoredList(grid)[i] == y;
        }
        if y in StoredList(grid) {
          var i :| 0 <= i < |grid| && StoredList(grid)[i] == y;
          assert grid[i] in Elements(grid);
        }
      }
    }
    if NoInversion(Elements(grid)) {
      OrdersAgreeIff(Elements(grid));
      forall i, j | 0 <= i < j < |grid|
        ensures Before(StoredList(grid)[i], StoredList(grid)[j])
      {
        assert grid[i] in Elements(grid) && grid[j] in Elements(grid);
      }
      SortedIsUnique(Ranked(rows), StoredList(grid));
    } else if Ranked(rows) == StoredList(grid) {
      assert Sorted(StoredList(grid));
      assert StoredSorted(grid) by {
        forall i, j | 0 <= i < j < |grid|
          ensures StoredBefore(grid[i], grid[j])
        {
          assert Before(StoredList(grid)[i], StoredList(grid)[j]);
        }
      }
      EqualListsHaveNoInversion(grid);
    }
  }
}
