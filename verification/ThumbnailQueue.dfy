/**
 The thumbnail priority queue: a heap with lazy invalidation, and a `queued` map that
 holds the truth about which keys still wait and at which tier.
 */
module ThumbnailQueue {
  import opened Basics

  type Key = string

  /** Lower tiers are served first. */
  const TIER_BOOST: nat := 0
  const TIER_NORMAL: nat := 1

  datatype Size = Small | Medium | Large

  /** What a worker needs to generate one thumbnail. */
  datatype Job = Job(uri: string, size: Size, mtime: Option<int>, enqueuedAt: int, mediaId: int)

  datatype PriItem = PriItem(tier: nat, seqNo: nat, key: Key, job: Job)

  datatype QueuedEntry = QueuedEntry(tier: nat, job: Job)

  datatype Queue = Queue(heap: set<PriItem>, queued: map<Key, QueuedEntry>, seqNo: nat)

  /** The heap's order. Sequence numbers are unique, so the source's further tie-breakers never decide. */
  predicate Precedes(a: PriItem, b: PriItem) {
    a.tier < b.tier || (a.tier == b.tier && a.seqNo < b.seqNo)
  }

  /** `m` may be popped next. */
  predicate IsFirst(heap: set<PriItem>, m: PriItem) {
    m in heap && forall j :: j in heap ==> !Precedes(j, m)
  }

  /** A popped item is accepted exactly when its key is still queued at the item's tier. */
  predicate Live(q: Queue, i: PriItem) {
    i.key in q.queued && q.queued[i.key].tier == i.tier
  }

  /** `i` is the heap entry that carries `e`, the truth about `k`. */
  predicate Backs(i: PriItem, k: Key, e: QueuedEntry) {
    i.key == k && i.tier == e.tier && i.job == e.job
  }

  /** No entry of the same key and tier was pushed after `i`. */
  predicate Latest(heap: set<PriItem>, i: PriItem) {
    forall j :: j in heap && j.key == i.key && j.tier == i.tier ==> j.seqNo <= i.seqNo
  }

  /** The latest heap entry of `k` at its tier carries the truth about `k`. */
  ghost predicate Backed(q: Queue, k: Key)
    requires k in q.queued
  {
    exists i :: i in q.heap && Backs(i, k, q.queued[k]) && Latest(q.heap, i)
  }

  predicate UniqueNumbers(q: Queue) {
    && (forall i :: i in q.heap ==> i.seqNo <= q.seqNo)
    && (forall i, j :: i in q.heap && j in q.heap && i.seqNo == j.seqNo ==> i == j)
  }

  ghost predicate QueueInv(q: Queue, capacity: nat) {
    && UniqueNumbers(q)
    && (forall k :: k in q.queued ==> Backed(q, k))
    && |q.queued| <= capacity
  }

  // ---- the queue-lock sections, as functions of the queue ----

  function Enqueue(q: Queue, k: Key, e: QueuedEntry): Queue {
    Queue(q.heap + {PriItem(e.tier, q.seqNo + 1, k, e.job)}, q.queued[k := e], q.seqNo + 1)
  }

  function BoostOne(q: Queue, k: Key): Queue {
    if k !in q.queued || q.queued[k].tier == TIER_BOOST then q
    else Enqueue(q, k, q.queued[k].(tier := TIER_BOOST))
  }

  function Boost(q: Queue, keys: seq<Key>): Queue {
    if keys == [] then q else BoostOne(Boost(q, keys[..|keys| - 1]), keys[|keys| - 1])
  }

  /** Pop until an item is accepted or the heap is empty. */
  ghost function Pop(q: Queue): (Option<PriItem>, Queue)
    decreases |q.heap|
  {
    if q.heap == {} then (None, q)
    else
      FirstExists(q.heap);
      var m :| IsFirst(q.heap, m);
      var rest := q.(heap := q.heap - {m});
      if Live(q, m) then (Some(m), rest.(queued := q.queued - {m.key})) else Pop(rest)
  }

  lemma FirstExists(heap: set<PriItem>)
    requires heap != {}
    ensures exists m :: IsFirst(heap, m)
    decreases |heap|
  {
    var x :| x in heap;
    if heap == {x} {
      assert IsFirst(heap, x);
    } else {
      FirstExists(heap - {x});
      var m :| IsFirst(heap - {x}, m);
      assert forall j :: j in heap ==> j == x || j in heap - {x};
      if Precedes(x, m) {
        assert IsFirst(heap, x);
      } else {
        assert IsFirst(heap, m);
      }
    }
  }

  lemma FirstIsUnique(q: Queue, a: PriItem, b: PriItem)
    requires UniqueNumbers(q) && IsFirst(q.heap, a) && IsFirst(q.heap, b)
    ensures a == b
  {
  }

  // ---- what the sections keep ----

  lemma EnqueueKeepsInv(q: Queue, k: Key, e: QueuedEntry, capacity: nat)
    requires QueueInv(q, capacity)
    requires k in q.queued || |q.queued| < capacity
    ensures QueueInv(Enqueue(q, k, e), capacity)
  {
    EnqueueKeepsNumbers(q, k, e);
    forall j | j in Enqueue(q, k, e).queued
      ensures Backed(Enqueue(q, k, e), j)
    {
      EnqueueBacks(q, k, e, j);
    }
    assert q.queued[k := e].Keys == q.queued.Keys + {k};
  }

  lemma EnqueueKeepsNumbers(q: Queue, k: Key, e: QueuedEntry)
    requires UniqueNumbers(q)
    ensures UniqueNumbers(Enqueue(q, k, e))
  {
    var pushed := PriItem(e.tier, q.seqNo + 1, k, e.job);
    assert forall i :: i in Enqueue(q, k, e).heap ==> i in q.heap || i == pushed;
  }

  lemma EnqueueBacks(q: Queue, k: Key, e: QueuedEntry, j: Key)
    requires UniqueNumbers(q) && (j == k || (j in q.queued && Backed(q, j)))
    ensures Backed(Enqueue(q, k, e), j)
  {
    var q' := Enqueue(q, k, e);
    if j == k {
      var i := PriItem(e.tier, q.seqNo + 1, k, e.job);
      assert i in q'.heap && Backs(i, k, q'.queued[k]) && Latest(q'.heap, i);
    } else {
      var i :| i in q.heap && Backs(i, j, q.queued[j]) && Latest(q.heap, i);
      assert i in q'.heap && Backs(i, j, q'.queued[j]) && Latest(q'.heap, i);
    }
  }

  /** The tier of `k`'s entry after a boost of `keys`. */
  predicate Boosted(before: QueuedEntry, after: QueuedEntry, named: bool) {
    after == if named then before.(tier := TIER_BOOST) else before
  }

  lemma BoostOneEffect(q: Queue, k: Key, capacity: nat)
    requires QueueInv(q, capacity)
    ensures QueueInv(BoostOne(q, k), capacity)
    ensures BoostOne(q, k).queued.Keys == q.queued.Keys
    ensures forall j :: j in q.queued ==> Boosted(q.queued[j], BoostOne(q, k).queued[j], j == k)
    ensures q.heap <= BoostOne(q, k).heap
  {
    if k in q.queued && q.queued[k].tier != TIER_BOOST {
      EnqueueKeepsInv(q, k, q.queued[k].(tier := TIER_BOOST), capacity);
    }
  }

  lemma {:induction false} BoostKeepsInv(q: Queue, keys: seq<Key>, capacity: nat)
    requires QueueInv(q, capacity)
    ensures QueueInv(Boost(q, keys), capacity)
    ensures q.heap <= Boost(q, keys).heap
    decreases |keys|
  {
    if keys != [] {
      BoostKeepsInv(q, keys[..|keys| - 1], capacity);
      BoostOneEffect(Boost(q, keys[..|keys| - 1]), keys[|keys| - 1], capacity);
    }
  }

  /** Boosting raises exactly the still-queued keys named, and changes nothing else about them. */
  lemma {:induction false} BoostRaisesExactlyTheNamed(q: Queue, keys: seq<Key>)
    ensures Boost(q, keys).queued.Keys == q.queued.Keys
    ensures forall j :: j in q.queued ==> Boosted(q.queued[j], Boost(q, keys).queued[j], j in keys)
    decreases |keys|
  {
    if keys != [] {
      var init, k := keys[..|keys| - 1], keys[|keys| - 1];
      assert forall j :: j in keys <==> j in init || j == k by { assert keys == init + [k]; }
      BoostRaisesExactlyTheNamed(q, init);
    }
  }

  /**
   A pop returns nothing exactly when nothing is queued. Otherwise the accepted item belongs to a
   queued key at that key's current tier, follows no live entry that was left behind, and every key
   still queued waits at a tier that is no better. Only stale entries are discarded.
   */
  ghost predicate PopsInOrder(q: Queue, r: Option<PriItem>, q': Queue, capacity: nat) {
    && (r.None? <==> q.queued == map[])
    && (r.None? ==> q'.queued == q.queued)
    && (r.Some? ==>
          && r.value in q.heap && Live(q, r.value)
          && q'.queued == q.queued - {r.value.key}
          && (forall j :: j in q.heap && Live(q, j) ==> !Precedes(j, r.value))
          && (forall k :: k in q'.queued ==> r.value.tier <= q'.queued[k].tier))
    && QueueInv(q', capacity)
    && q'.heap <= q.heap && q'.seqNo == q.seqNo
  }

  /** A boost is worth it: a boosted key is popped next, whatever waits, unless another key was boosted as well. */
  lemma BoostedKeyIsNext(q: Queue, k: Key, capacity: nat)
    requires QueueInv(q, capacity) && k in q.queued
    requires forall j :: j in q.queued && j != k ==> q.queued[j].tier >= TIER_NORMAL
    ensures Pop(BoostOne(q, k)).0.Some? && Pop(BoostOne(q, k)).0.value.key == k
  {
    BoostOneEffect(q, k, capacity);
    BoostedIsNext(BoostOne(q, k), k, capacity);
  }

  lemma BoostedIsNext(q: Queue, k: Key, capacity: nat)
    requires QueueInv(q, capacity) && k in q.queued && q.queued[k].tier == TIER_BOOST
    requires forall j :: j in q.queued && j != k ==> q.queued[j].tier >= TIER_NORMAL
    ensures Pop(q).0.Some? && Pop(q).0.value.key == k
  {
    PopHasNoPriorityInversion(q, capacity);
    var item := Pop(q).0.value;
    assert item.tier <= TIER_BOOST;
    assert q.queued[item.key].tier == item.tier;
  }

  /** No priority inversion. */
  lemma {:induction false} PopHasNoPriorityInversion(q: Queue, capacity: nat)
    requires QueueInv(q, capacity)
    ensures PopsInOrder(q, Pop(q).0, Pop(q).1, capacity)
    decreases |q.heap|
  {
    if q.heap == {} {
      QueuedNeedsHeap(q);
    } else {
      FirstExists(q.heap);
      var m :| IsFirst(q.heap, m) && Pop(q) == (
        var rest := q.(heap := q.heap - {m});
        if Live(q, m) then (Some(m), rest.(queued := q.queued - {m.key})) else Pop(rest));
      if Live(q, m) {
        AcceptFirst(q, m, capacity);
      } else {
        var rest := q.(heap := q.heap - {m});
        StillBacked(q, rest, m);
        PopHasNoPriorityInversion(rest, capacity);
        DiscardStale(q, m, Pop(rest).0, Pop(rest).1, capacity);
      }
    }
  }

  /** Something is queued only if the heap holds something. */
  lemma QueuedNeedsHeap(q: Queue)
    requires forall k :: k in q.queued ==> Backed(q, k)
    ensures q.queued == map[] || q.heap != {}
  {
    if q.queued != map[] {
      var k :| k in q.queued;
      var i :| i in q.heap && Backs(i, k, q.queued[k]);
    }
  }

  lemma AcceptFirst(q: Queue, m: PriItem, capacity: nat)
    requires QueueInv(q, capacity) && IsFirst(q.heap, m) && Live(q, m)
    ensures PopsInOrder(q, Some(m), Queue(q.heap - {m}, q.queued - {m.key}, q.seqNo), capacity)
  {
    var q' := Queue(q.heap - {m}, q.queued - {m.key}, q.seqNo);
    StillBacked(q, q', m);
    assert q'.queued.Keys == q.queued.Keys - {m.key};
    forall k | k in q'.queued
      ensures m.tier <= q'.queued[k].tier
    {
      var i :| i in q.heap && Backs(i, k, q.queued[k]);
    }
  }

  lemma DiscardStale(q: Queue, m: PriItem, r: Option<PriItem>, q': Queue, capacity: nat)
    requires m in q.heap && !Live(q, m) && PopsInOrder(q.(heap := q.heap - {m}), r, q', capacity)
    ensures PopsInOrder(q, r, q', capacity)
  {
    var rest := q.(heap := q.heap - {m});
    forall j | j in q.heap && Live(q, j) && r.Some?
      ensures !Precedes(j, r.value)
    {
      assert j in rest.heap && Live(rest, j);
    }
  }

  /** Dropping one heap entry unbacks only the key it was live for. */
  lemma StillBacked(q: Queue, q': Queue, m: PriItem)
    requires forall k :: k in q.queued ==> Backed(q, k)
    requires q'.heap == q.heap - {m}
    requires forall k :: k in q'.queued ==> k in q.queued && q'.queued[k] == q.queued[k] && (k == m.key ==> !Live(q, m))
    ensures forall k :: k in q'.queued ==> Backed(q', k)
  {
    forall k | k in q'.queued
      ensures Backed(q', k)
    {
      var i :| i in q.heap && Backs(i, k, q.queued[k]) && Latest(q.heap, i);
      assert i != m;
      assert i in q'.heap && Backs(i, k, q'.queued[k]) && Latest(q'.heap, i);
    }
  }

  /** The heap holds another entry that would be accepted for the same key. */
  ghost predicate HasOther(q: Queue, i: PriItem) {
    exists j :: j in q.heap && j.key == i.key && Live(q, j) && j != i
  }

  /**
   First-in-first-out within a tier does not survive lazy invalidation: a pop always takes the oldest entry of
   its key and tier, so it serves the latest request for the key exactly when no other entry of it is live.
   The latest entry is the one that carries the current job.
   */
  lemma PopServesTheLatestIff(q: Queue, capacity: nat)
    requires QueueInv(q, capacity) && Pop(q).0.Some?
    ensures var item := Pop(q).0.value;
            && (Latest(q.heap, item) <==> !HasOther(q, item))
            && item.key in q.queued && (Latest(q.heap, item) ==> item.job == q.queued[item.key].job)
  {
    PopHasNoPriorityInversion(q, capacity);
    var item := Pop(q).0.value;
    assert Backed(q, item.key);
    var top :| top in q.heap && Backs(top, item.key, q.queued[item.key]) && Latest(q.heap, top);
    if HasOther(q, item) {
      var j :| j in q.heap && j.key == item.key && Live(q, j) && j != item;
      assert !Precedes(j, item) && j.seqNo != item.seqNo;
    }
    assert Live(q, top);
    assert top.seqNo == item.seqNo ==> top == item;
  }

  /** The current request of a queued key: the latest entry of its tier. */
  ghost predicate IsRequest(q: Queue, i: PriItem) {
    i in q.heap && Live(q, i) && Latest(q.heap, i)
  }

  ghost predicate IsOldestRequest(q: Queue, m: PriItem) {
    IsRequest(q, m) && forall j :: IsRequest(q, j) && j.tier == m.tier ==> m.seqNo <= j.seqNo
  }

  /** An entry that would be accepted although it is not the current request of its key. */
  ghost predicate IsRevivable(q: Queue, i: PriItem) {
    i in q.heap && Live(q, i) && !Latest(q.heap, i)
  }

  /** Every tier with a queued key has an oldest request. */
  lemma OldestRequestExists(q: Queue, k: Key)
    requires k in q.queued && Backed(q, k)
    ensures exists m :: IsOldestRequest(q, m) && m.tier == q.queued[k].tier
  {
    var top :| top in q.heap && Backs(top, k, q.queued[k]) && Latest(q.heap, top);
    OldestOfTier(q, top);
  }

  lemma OldestOfTier(q: Queue, top: PriItem)
    requires IsRequest(q, top)
    ensures exists m :: IsOldestRequest(q, m) && m.tier == top.tier
  {
    var requests := set i | i in q.heap && IsRequest(q, i) && i.tier == top.tier;
    assert top in requests;
    FirstExists(requests);
    var m :| IsFirst(requests, m);
    forall j | IsRequest(q, j) && j.tier == m.tier
      ensures m.seqNo <= j.seqNo
    {
      assert j in requests;
    }
    assert IsOldestRequest(q, m);
  }

  /**
   The order of service. A tier is served by the age of its live entries, whatever their keys; that is the order of
   the current requests exactly as long as no revivable entry is older than the oldest of them.
   */
  lemma PopIsFirstInFirstOutIff(q: Queue, capacity: nat, m: PriItem)
    requires QueueInv(q, capacity) && Pop(q).0.Some?
    requires IsOldestRequest(q, m) && m.tier == Pop(q).0.value.tier
    ensures var item := Pop(q).0.value;
            && (forall j :: j in q.heap && Live(q, j) && j.tier == item.tier && j != item ==> item.seqNo < j.seqNo)
            && (item == m <==> forall j :: IsRevivable(q, j) && j.tier == item.tier ==> m.seqNo < j.seqNo)
  {
    var item := Pop(q).0.value;
    assert item in q.heap && Live(q, item) && forall j :: j in q.heap && Live(q, j) ==> !Precedes(j, item) by {
      PopHasNoPriorityInversion(q, capacity);
    }
    OldestLiveIsFirstInFirstOutIff(q, item, m);
  }

  lemma OldestLiveIsFirstInFirstOutIff(q: Queue, item: PriItem, m: PriItem)
    requires UniqueNumbers(q) && item in q.heap && Live(q, item)
    requires forall j :: j in q.heap && Live(q, j) ==> !Precedes(j, item)
    requires IsOldestRequest(q, m) && m.tier == item.tier
    ensures forall j :: j in q.heap && Live(q, j) && j.tier == item.tier && j != item ==> item.seqNo < j.seqNo
    ensures item == m <==> forall j :: IsRevivable(q, j) && j.tier == item.tier ==> m.seqNo < j.seqNo
  {
    forall j | j in q.heap && Live(q, j) && j.tier == item.tier && j != item
      ensures item.seqNo < j.seqNo
    {
      assert !Precedes(j, item) && j.seqNo != item.seqNo;
    }
    if item != m {
      assert item.seqNo < m.seqNo && !IsRequest(q, item);
      assert IsRevivable(q, item);
    }
  }

  /** The failing case exists: a request overtakes an older one, because a cancelled request of its key is left. */
  lemma LaterRequestOvertakes(a: Key, b: Key, cancelled: Job, waiting: Job, later: Job)
    requires a != b
    ensures var q0 := Enqueue(Queue({}, map[], 0), a, QueuedEntry(TIER_NORMAL, cancelled));
            var q1 := q0.(queued := q0.queued - {a});
            var q2 := Enqueue(q1, b, QueuedEntry(TIER_NORMAL, waiting));
            var q3 := Enqueue(q2, a, QueuedEntry(TIER_NORMAL, later));
            && IsOldestRequest(q3, PriItem(TIER_NORMAL, 2, b, waiting))
            && Pop(q3).0 == Some(PriItem(TIER_NORMAL, 1, a, cancelled))
  {
    var q0 := Enqueue(Queue({}, map[], 0), a, QueuedEntry(TIER_NORMAL, cancelled));
    var q1 := q0.(queued := q0.queued - {a});
    var q2 := Enqueue(q1, b, QueuedEntry(TIER_NORMAL, waiting));
    var q3 := Enqueue(q2, a, QueuedEntry(TIER_NORMAL, later));
    var first, second, third :=
      PriItem(TIER_NORMAL, 1, a, cancelled), PriItem(TIER_NORMAL, 2, b, waiting), PriItem(TIER_NORMAL, 3, a, later);
    assert q3.heap == {first, second, third};
    assert !Latest(q3.heap, first) && IsRequest(q3, second);
    assert IsFirst(q3.heap, first);
    FirstExists(q3.heap);
  }

  /** A leftover of the key at the tier: an entry that an accepted pop could take instead. */
  ghost predicate HasLeftover(heap: set<PriItem>, k: Key, tier: nat) {
    exists i :: i in heap && i.key == k && i.tier == tier
  }

  /** When an entry was just pushed for `k`, a pop of `k` returns it exactly if the heap held no leftover. */
  lemma PopReturnsThePushedIffNoLeftover(q: Queue, k: Key, e: QueuedEntry, capacity: nat)
    requires QueueInv(q, capacity) && (k in q.queued || |q.queued| < capacity)
    requires Pop(Enqueue(q, k, e)).0.Some? && Pop(Enqueue(q, k, e)).0.value.key == k
    ensures Pop(Enqueue(q, k, e)).0.value == PriItem(e.tier, q.seqNo + 1, k, e.job)
            <==> !HasLeftover(q.heap, k, e.tier)
  {
    var q1 := Enqueue(q, k, e);
    var item := Pop(q1).0.value;
    assert item in q1.heap && Live(q1, item) && (Latest(q1.heap, item) <==> !HasOther(q1, item)) by {
      EnqueueKeepsInv(q, k, e, capacity);
      PopHasNoPriorityInversion(q1, capacity);
      PopServesTheLatestIff(q1, capacity);
    }
    PushedIsLatest(q, k, e, item);
  }

  lemma PushedIsLatest(q: Queue, k: Key, e: QueuedEntry, item: PriItem)
    requires UniqueNumbers(q)
    requires var q1 := Enqueue(q, k, e);
             item in q1.heap && item.key == k && Live(q1, item) && (Latest(q1.heap, item) <==> !HasOther(q1, item))
    ensures item == PriItem(e.tier, q.seqNo + 1, k, e.job) <==> !HasLeftover(q.heap, k, e.tier)
  {
    var q1, pushed := Enqueue(q, k, e), PriItem(e.tier, q.seqNo + 1, k, e.job);
    if HasLeftover(q.heap, k, e.tier) {
      var i :| i in q.heap && i.key == k && i.tier == e.tier;
      assert i in q1.heap && Live(q1, i) && i != pushed;
      assert item == pushed ==> HasOther(q1, item) && Latest(q1.heap, item);
    } else {
      assert item !in q.heap;
    }
  }

  /** A request: the pop serves it exactly if no cancelled request of its key and tier is left in the heap. */
  lemma RequestIsServedIffNoLeftover(q: Queue, k: Key, e: QueuedEntry, capacity: nat)
    requires QueueInv(q, capacity) && k !in q.queued && |q.queued| < capacity
    requires Pop(Enqueue(q, k, e)).0.Some? && Pop(Enqueue(q, k, e)).0.value.key == k
    ensures Pop(Enqueue(q, k, e)).0.value == PriItem(e.tier, q.seqNo + 1, k, e.job)
            <==> !HasLeftover(q.heap, k, e.tier)
  {
    PopReturnsThePushedIffNoLeftover(q, k, e, capacity);
  }

  /** A boost: the pop serves the boosted request exactly if no earlier boosted one of its key is left in the heap. */
  lemma BoostIsServedIffNoLeftover(q: Queue, k: Key, capacity: nat)
    requires QueueInv(q, capacity) && k in q.queued && q.queued[k].tier != TIER_BOOST
    requires Pop(BoostOne(q, k)).0.Some? && Pop(BoostOne(q, k)).0.value.key == k
    ensures Pop(BoostOne(q, k)).0.value == PriItem(TIER_BOOST, q.seqNo + 1, k, q.queued[k].job)
            <==> !HasLeftover(q.heap, k, TIER_BOOST)
  {
    PopReturnsThePushedIffNoLeftover(q, k, q.queued[k].(tier := TIER_BOOST), capacity);
  }

  /** The failing case exists: request, cancel while queued, request again for another media row. */
  lemma CancelledEntryIsRevived(k: Key, first: Job, second: Job)
    requires first != second
    ensures var q0 := Enqueue(Queue({}, map[], 0), k, QueuedEntry(TIER_NORMAL, first));
            var q1 := q0.(queued := q0.queued - {k});
            var q2 := Enqueue(q1, k, QueuedEntry(TIER_NORMAL, second));
            Pop(q2).0 == Some(PriItem(TIER_NORMAL, 1, k, first))
  {
    var q0 := Enqueue(Queue({}, map[], 0), k, QueuedEntry(TIER_NORMAL, first));
    var q1 := q0.(queued := q0.queued - {k});
    var q2 := Enqueue(q1, k, QueuedEntry(TIER_NORMAL, second));
    assert q2.heap == {PriItem(TIER_NORMAL, 1, k, first), PriItem(TIER_NORMAL, 2, k, second)};
    assert IsFirst(q2.heap, PriItem(TIER_NORMAL, 1, k, first));
    FirstExists(q2.heap);
  }

  /** And so does the other: boosting a second request revives the boosted entry of a first, cancelled one. */
  lemma BoostRevivesCancelled(k: Key, first: Job, second: Job)
    requires first != second
    ensures var q0 := Enqueue(Queue({}, map[], 0), k, QueuedEntry(TIER_BOOST, first));
            var q1 := q0.(queued := q0.queued - {k});
            var q2 := Enqueue(q1, k, QueuedEntry(TIER_NORMAL, second));
            && !HasLeftover(q1.heap, k, TIER_NORMAL)
            && BoostOne(q2, k).queued == map[k := QueuedEntry(TIER_BOOST, second)]
            && Pop(BoostOne(q2, k)).0 == Some(PriItem(TIER_BOOST, 1, k, first))
  {
    var q0 := Enqueue(Queue({}, map[], 0), k, QueuedEntry(TIER_BOOST, first));
    var q1 := q0.(queued := q0.queued - {k});
    var q2 := Enqueue(q1, k, QueuedEntry(TIER_NORMAL, second));
    var q3 := BoostOne(q2, k);
    var old1, old2 := PriItem(TIER_BOOST, 1, k, first), PriItem(TIER_NORMAL, 2, k, second);
    assert q3.heap == {old1, old2, PriItem(TIER_BOOST, 3, k, second)};
    assert IsFirst(q3.heap, old1);
    FirstExists(q3.heap);
  }
}
