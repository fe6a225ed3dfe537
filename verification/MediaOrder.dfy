/** The order of the library: sort time descending, then id descending. */
module MediaOrder {
  import opened Basics

  /**
   A media row; `rest` stands for every other column. `time` is the capture time or else the file time: in
   nanoseconds for a row of a list, in whole seconds for a row of a query.
   */
  datatype MediaItem = MediaItem(id: int, uri: string, time: int, rest: nat)

  predicate Before(a: MediaItem, b: MediaItem) {
    a.time > b.time || (a.time == b.time && a.id > b.id)
  }

  predicate Sorted(s: seq<MediaItem>) {
    forall i, j :: 0 <= i < j < |s| ==> Before(s[i], s[j])
  }

  predicate DistinctIds(rows: set<MediaItem>) {
    forall a, b :: a in rows && b in rows && a.id == b.id ==> a == b
  }

  function Elements(s: seq<MediaItem>): set<MediaItem> {
    set x | x in s
  }

  lemma SortedHasNoRepeats(s: seq<MediaItem>)
    requires Sorted(s)
    ensures |Elements(s)| == |s|
    decreases |s|
  {
    if s != [] {
      var init, x := s[..|s| - 1], s[|s| - 1];
      SortedHasNoRepeats(init);
      assert s == init + [x];
      assert Elements(s) == Elements(init) + {x};
      assert x !in init;
    }
  }

  /** A sorted sequence is determined by its elements. */
  lemma {:induction false} SortedIsUnique(a: seq<MediaItem>, b: seq<MediaItem>)
    requires Sorted(a) && Sorted(b) && Elements(a) == Elements(b)
    ensures a == b
    decreases |a|
  {
    SortedHasNoRepeats(a);
    SortedHasNoRepeats(b);
    if a != [] {
      var x, y := a[0], b[0];
      assert x in Elements(a) && y in Elements(b);
      assert x == y;
      forall z
        ensures z in a[1..] <==> z in b[1..]
      {
        assert z in a[1..] <==> z in Elements(a) && z != x;
        assert z in b[1..] <==> z in Elements(b) && z != x;
      }
      assert Elements(a[1..]) == Elements(b[1..]);
      SortedIsUnique(a[1..], b[1..]);
      assert a == [x] + a[1..] && b == [y] + b[1..];
    }
  }

  /** Insertion before the first element that `x` precedes. */
  function Insert(s: seq<MediaItem>, x: MediaItem): seq<MediaItem> {
    if s == [] then [x]
    else if Before(x, s[0]) then [x] + s
    else [s[0]] + Insert(s[1..], x)
  }

  lemma {:induction false} InsertAddsOne(s: seq<MediaItem>, x: MediaItem)
    ensures Elements(Insert(s, x)) == Elements(s) + {x}
    ensures |Insert(s, x)| == |s| + 1
    decreases |s|
  {
    if s != [] {
      InsertAddsOne(s[1..], x);
      forall y
        ensures y in Insert(s, x) <==> y in s || y == x
      {
        assert y in s <==> y == s[0] || y in s[1..];
        assert y in Insert(s[1..], x) <==> y in Elements(Insert(s[1..], x));
      }
    }
  }

  lemma {:induction false} InsertIsSorted(s: seq<MediaItem>, x: MediaItem)
    requires Sorted(s) && forall y :: y in s ==> y.id != x.id || y.time != x.time
    ensures Sorted(Insert(s, x))
    decreases |s|
  {
    if s != [] && !Before(x, s[0]) {
      var rest := Insert(s[1..], x);
      InsertIsSorted(s[1..], x);
      InsertAddsOne(s[1..], x);
      assert Before(s[0], x) by { assert s[0] in s; }
      forall j | 0 <= j < |rest|
        ensures Before(s[0], rest[j])
      {
        assert rest[j] in Elements(s[1..]) + {x};
      }
    }
  }

  /** `s` is the first `cap` rows of `rows` in order. */
  predicate IsTop(s: seq<MediaItem>, rows: set<MediaItem>, cap: nat) {
    && Sorted(s)
    && Elements(s) <= rows
    && |s| == (if |rows| <= cap then |rows| else cap)
    && forall x, y :: x in s && y in rows && y !in s ==> Before(x, y)
  }

  /** There is only one such list. */
  lemma TopIsUnique(a: seq<MediaItem>, b: seq<MediaItem>, rows: set<MediaItem>, cap: nat)
    requires IsTop(a, rows, cap) && IsTop(b, rows, cap)
    ensures a == b
  {
    SortedHasNoRepeats(a);
    SortedHasNoRepeats(b);
    if x :| x in a && x !in b {
      forall y | y in Elements(b)
        ensures y in Elements(a)
      {
        assert y in b && Before(y, x);
      }
      SubsetOfSameSize(Elements(b), Elements(a));
    } else {
      SubsetOfSameSize(Elements(a), Elements(b));
    }
    SortedIsUnique(a, b);
  }
}
