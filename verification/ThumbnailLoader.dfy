/**
 The thumbnail loader: in-flight deduplication, waiter lists, cancellation and full-queue rollback
 on top of the priority queue. Every lock section is one atomic step; registering a request and
 enqueueing it are two sections, so other threads can run between them.
 */
module ThumbnailLoader {
  import opened Basics
  import opened ThumbnailQueue

  /** One caller waiting for a thumbnail; `flag` identifies its cancellation flag, if it has one. */
  datatype Waiter = Waiter(reply: nat, flag: Option<nat>)

  predicate IsCancelled(w: Waiter, flags: set<nat>) {
    w.flag.Some? && w.flag.value in flags
  }

  function Retain(ws: seq<Waiter>, flags: set<nat>): seq<Waiter> {
    if ws == [] then []
    else if IsCancelled(ws[0], flags) then Retain(ws[1..], flags)
    else [ws[0]] + Retain(ws[1..], flags)
  }

  predicate HasReply(ws: seq<Waiter>, r: nat) {
    exists i :: 0 <= i < |ws| && ws[i].reply == r
  }

  predicate DistinctReplies(ws: seq<Waiter>) {
    forall i, j :: 0 <= i < j < |ws| ==> ws[i].reply != ws[j].reply
  }

  /** Where a reply channel is. The last four are final. */
  datatype Place = Waiting(key: Key) | Delivering | Answered | Cancelled | Failed | DroppedByFullQueue

  /**
   The whole loader. `pending` are keys registered and about to be enqueued, `rejected` are keys whose
   enqueue found the queue full and whose rollback has not run yet, `generating` are keys a worker holds,
   `outbox` are waiters taken out by a finished worker and not sent to yet.
   `place` and `sent` record what happened to every reply channel ever handed in.
   */
  datatype Loader = Loader(
    q: Queue,
    inFlight: map<Key, seq<Waiter>>,
    cached: set<Key>,
    flags: set<nat>,
    pending: map<Key, QueuedEntry>,
    rejected: set<Key>,
    generating: set<Key>,
    outbox: seq<Waiter>,
    place: map<nat, Place>,
    sent: seq<nat>)

  const EMPTY := Loader(Queue({}, map[], 0), map[], {}, {}, map[], {}, {}, [], map[], [])

  datatype Step =
    | Request(key: Key, entry: QueuedEntry, waiter: Waiter)  // state section of a request
    | RequestCancelled(waiter: Waiter)                       // the flag was already set on entry
    | EnqueueRegistered(key: Key)                            // queue section of a request
    | Rollback(key: Key)                                     // state section after a full queue
    | Prioritize(keys: seq<Key>)
    | SetFlag(flag: nat)                                     // first half of a cancellation
    | Sweep(key: Key)                                        // its state and queue sections
    | PopNext
    | PullBackground(key: Key)                               // a worker takes a key from the database
    | Finish(key: Key, ok: bool)                             // a worker's state section
    | Deliver(index: nat)                                    // one send, outside the locks
    | Evict(key: Key)                                        // a memory cache loses a key

  predicate Enabled(s: Loader, t: Step) {
    match t
    case Request(_, _, w) => w.reply !in s.place
    case RequestCancelled(w) => w.reply !in s.place && IsCancelled(w, s.flags)
    case EnqueueRegistered(k) => k in s.pending
    case Rollback(k) => k in s.rejected && k in s.inFlight
    case PullBackground(k) => k !in s.inFlight && k !in s.q.queued
    case Finish(k, _) => k in s.generating && k in s.inFlight
    case Deliver(i) => i < |s.outbox|
    case _ => true
  }

  /** Every reply of `ws` moves to `target`. */
  function Settle(place: map<nat, Place>, ws: seq<Waiter>, target: Place): map<nat, Place> {
    map r | r in place :: if HasReply(ws, r) then target else place[r]
  }

  function RequestStep(s: Loader, k: Key, e: QueuedEntry, w: Waiter): Loader {
    if k in s.cached then
      s.(place := s.place[w.reply := Answered], sent := s.sent + [w.reply])
    else if k in s.inFlight then
      s.(inFlight := s.inFlight[k := s.inFlight[k] + [w]], place := s.place[w.reply := Waiting(k)])
    else
      s.(inFlight := s.inFlight[k := [w]], pending := s.pending[k := e], place := s.place[w.reply := Waiting(k)])
  }

  function EnqueueStep(s: Loader, k: Key, capacity: nat): Loader
    requires k in s.pending
  {
    if |s.q.queued| >= capacity then
      s.(pending := s.pending - {k}, rejected := s.rejected + {k})
    else
      s.(pending := s.pending - {k}, q := Enqueue(s.q, k, s.pending[k]))
  }

  function SweepStep(s: Loader, k: Key): Loader {
    if k !in s.inFlight then s
    else
      var kept := Retain(s.inFlight[k], s.flags);
      var place := map r | r in s.place ::
        if HasReply(s.inFlight[k], r) && !HasReply(kept, r) then Cancelled else s.place[r];
      if kept == [] && k in s.q.queued then
        s.(inFlight := s.inFlight - {k}, q := s.q.(queued := s.q.queued - {k}), place := place)
      else
        s.(inFlight := s.inFlight[k := kept], place := place)
  }

  ghost function PopStep(s: Loader): Loader {
    var (r, q') := Pop(s.q);
    s.(q := q', generating := if r.Some? then s.generating + {r.value.key} else s.generating)
  }

  function FinishStep(s: Loader, k: Key, ok: bool): Loader
    requires k in s.inFlight
  {
    var ws := s.inFlight[k];
    var s' := s.(generating := s.generating - {k}, inFlight := s.inFlight - {k});
    if ok then
      s'.(cached := s.cached + {k}, outbox := s.outbox + ws, place := Settle(s.place, ws, Delivering))
    else
      s'.(place := Settle(s.place, ws, Failed))
  }

  function DeliverStep(s: Loader, i: nat): Loader
    requires i < |s.outbox|
  {
    var w := s.outbox[i];
    var s' := s.(outbox := s.outbox[..i] + s.outbox[i + 1..]);
    if IsCancelled(w, s.flags) then s'.(place := s.place[w.reply := Cancelled])
    else s'.(place := s.place[w.reply := Answered], sent := s.sent + [w.reply])
  }

  ghost function Apply(s: Loader, t: Step, capacity: nat): Loader
    requires Enabled(s, t)
  {
    match t
    case Request(k, e, w) => RequestStep(s, k, e, w)
    case RequestCancelled(w) => s.(place := s.place[w.reply := Cancelled])
    case EnqueueRegistered(k) => EnqueueStep(s, k, capacity)
    case Rollback(k) =>
      s.(rejected := s.rejected - {k}, inFlight := s.inFlight - {k},
         place := Settle(s.place, s.inFlight[k], DroppedByFullQueue))
    case Prioritize(keys) => s.(q := Boost(s.q, keys))
    case SetFlag(f) => s.(flags := s.flags + {f})
    case Sweep(k) => SweepStep(s, k)
    case PopNext => PopStep(s)
    case PullBackground(k) => s.(inFlight := s.inFlight[k := []], generating := s.generating + {k})
    case Finish(k, ok) => FinishStep(s, k, ok)
    case Deliver(i) => DeliverStep(s, i)
    case Evict(k) => s.(cached := s.cached - {k})
  }

  // ---- the invariant ----

  /** `whole` says whether exactly one of the others holds, and never do two. */
  predicate ExactlyOneIff(whole: bool, a: bool, b: bool, c: bool, d: bool) {
    && whole == (a || b || c || d)
    && !(a && b) && !(a && c) && !(a && d) && !(b && c) && !(b && d) && !(c && d)
  }

  predicate PhaseOf(s: Loader, k: Key) {
    ExactlyOneIff(k in s.inFlight, k in s.pending, k in s.rejected, k in s.q.queued, k in s.generating)
  }

  /** A key is in at most one phase, and is in flight exactly while it is in one. */
  ghost predicate OnePhase(s: Loader) {
    forall k :: PhaseOf(s, k)
  }

  ghost predicate WaitsAt(s: Loader, r: nat, k: Key) {
    r in s.place && s.place[r] == Waiting(k)
  }

  /** Every reply is in exactly one place, and the lists hold each reply at most once. */
  ghost predicate RepliesConserved(s: Loader) {
    && (forall r, k :: WaitsAt(s, r, k) <==> k in s.inFlight && HasReply(s.inFlight[k], r))
    && (forall r :: HasReply(s.outbox, r) <==> r in s.place && s.place[r] == Delivering)
    && (forall r :: r in s.sent <==> r in s.place && s.place[r] == Answered)
    && (forall k :: k in s.inFlight ==> DistinctReplies(s.inFlight[k]))
    && DistinctReplies(s.outbox)
    && NoDuplicates(s.sent)
  }

  ghost predicate Inv(s: Loader, capacity: nat) {
    QueueInv(s.q, capacity) && OnePhase(s) && RepliesConserved(s)
  }

  // ---- helpers about waiter lists ----

  lemma HasReplyAppend(a: seq<Waiter>, b: seq<Waiter>, r: nat)
    ensures HasReply(a + b, r) <==> HasReply(a, r) || HasReply(b, r)
  {
    if HasReply(a, r) {
      var i :| 0 <= i < |a| && a[i].reply == r;
      assert (a + b)[i].reply == r;
    }
    if HasReply(b, r) {
      var i :| 0 <= i < |b| && b[i].reply == r;
      assert (a + b)[|a| + i].reply == r;
    }
  }

  lemma HasReplyWithout(ws: seq<Waiter>, i: nat, r: nat)
    requires i < |ws| && DistinctReplies(ws)
    ensures HasReply(ws[..i] + ws[i + 1..], r) <==> HasReply(ws, r) && r != ws[i].reply
  {
    var left, right := ws[..i], ws[i + 1..];
    HasReplyAppend(left, right, r);
    if HasReply(ws, r) && r != ws[i].reply {
      var j :| 0 <= j < |ws| && ws[j].reply == r;
      assert if j < i then left[j] == ws[j] else right[j - i - 1] == ws[j];
    }
  }

  lemma DistinctWithout(ws: seq<Waiter>, i: nat)
    requires i < |ws| && DistinctReplies(ws)
    ensures DistinctReplies(ws[..i] + ws[i + 1..])
  {
  }

  /** Retaining keeps exactly the waiters that are not cancelled. */
  lemma {:induction false} RetainKeepsExactlyTheActive(ws: seq<Waiter>, flags: set<nat>)
    ensures forall w :: w in Retain(ws, flags) <==> w in ws && !IsCancelled(w, flags)
    ensures DistinctReplies(ws) ==> DistinctReplies(Retain(ws, flags))
    decreases |ws|
  {
    if ws != [] {
      RetainKeepsExactlyTheActive(ws[1..], flags);
      var rest := Retain(ws[1..], flags);
      assert forall w :: w in ws <==> w == ws[0] || w in ws[1..];
      if DistinctReplies(ws) && !IsCancelled(ws[0], flags) {
        assert DistinctReplies(ws[1..]);
        forall j | 0 <= j < |rest|
          ensures rest[j].reply != ws[0].reply
        {
          assert rest[j] in ws[1..];
        }
      }
    }
  }

  lemma HasReplyIsMembership(ws: seq<Waiter>, r: nat)
    ensures HasReply(ws, r) <==> exists w :: w in ws && w.reply == r
  {
    if w :| w in ws && w.reply == r {
      var i :| 0 <= i < |ws| && ws[i] == w;
    }
  }

  // ---- every step keeps the invariant ----

  lemma QueueKept(s: Loader, t: Step, capacity: nat)
    requires QueueInv(s.q, capacity) && Enabled(s, t)
    ensures QueueInv(Apply(s, t, capacity).q, capacity)
  {
    match t
    case EnqueueRegistered(k) =>
      if |s.q.queued| < capacity {
        EnqueueKeepsInv(s.q, k, s.pending[k], capacity);
      }
    case Prioritize(keys) => BoostKeepsInv(s.q, keys, capacity);
    case Sweep(k) =>
      if k in s.inFlight && Retain(s.inFlight[k], s.flags) == [] && k in s.q.queued {
        DropQueued(s.q, k, capacity);
      }
    case PopNext => PopHasNoPriorityInversion(s.q, capacity);
    case _ =>
  }

  lemma DropQueued(q: Queue, k: Key, capacity: nat)
    requires QueueInv(q, capacity) && k in q.queued
    ensures QueueInv(q.(queued := q.queued - {k}), capacity)
  {
    var q' := q.(queued := q.queued - {k});
    assert q'.queued.Keys == q.queued.Keys - {k};
    forall j | j in q'.queued
      ensures Backed(q', j)
    {
      assert Backed(q, j);
    }
  }

  lemma PhasesKeptByPop(s: Loader, capacity: nat)
    requires QueueInv(s.q, capacity) && OnePhase(s)
    ensures OnePhase(PopStep(s))
  {
    var r, q' := Pop(s.q).0, Pop(s.q).1;
    assert if r.None? then q'.queued == s.q.queued
           else r.value.key in s.q.queued && q'.queued == s.q.queued - {r.value.key} by {
      PopHasNoPriorityInversion(s.q, capacity);
    }
    forall k
      ensures PhaseOf(PopStep(s), k)
    {
      assert PhaseOf(s, k);
    }
  }

  lemma PhasesKeptByBoost(s: Loader, keys: seq<Key>)
    requires OnePhase(s)
    ensures OnePhase(s.(q := Boost(s.q, keys)))
  {
    BoostRaisesExactlyTheNamed(s.q, keys);
    forall k
      ensures PhaseOf(s.(q := Boost(s.q, keys)), k)
    {
      assert PhaseOf(s, k);
    }
  }

  lemma PhasesKeptByOthers(s: Loader, t: Step, capacity: nat)
    requires OnePhase(s) && Enabled(s, t) && !t.PopNext? && !t.Prioritize?
    ensures OnePhase(Apply(s, t, capacity))
  {
    forall k
      ensures PhaseOf(Apply(s, t, capacity), k)
    {
      assert PhaseOf(s, k);
    }
  }

  lemma RepliesKeptByRequest(s: Loader, k: Key, e: QueuedEntry, w: Waiter)
    requires RepliesConserved(s) && w.reply !in s.place
    ensures RepliesConserved(RequestStep(s, k, e, w))
  {
    var s' := RequestStep(s, k, e, w);
    if k in s.cached {
      RepliesKeptByHit(s, s', w.reply);
    } else {
      var before := if k in s.inFlight then s.inFlight[k] else [];
      assert [] + [w] == [w];
      RepliesKeptByWaiting(s, s', k, before, w);
    }
  }

  lemma RepliesKeptByHit(s: Loader, s': Loader, r: nat)
    requires RepliesConserved(s) && r !in s.place
    requires s'.inFlight == s.inFlight && s'.outbox == s.outbox
    requires s'.place == s.place[r := Answered] && s'.sent == s.sent + [r]
    ensures RepliesConserved(s')
  {
    assert r !in s.sent;
    forall r', j
      ensures WaitsAt(s', r', j) <==> j in s'.inFlight && HasReply(s'.inFlight[j], r')
    {
      assert WaitsAt(s, r', j) <==> j in s.inFlight && HasReply(s.inFlight[j], r');
    }
  }

  lemma RepliesKeptByWaiting(s: Loader, s': Loader, k: Key, before: seq<Waiter>, w: Waiter)
    requires RepliesConserved(s) && w.reply !in s.place
    requires before == if k in s.inFlight then s.inFlight[k] else []
    requires s'.inFlight == s.inFlight[k := before + [w]] && s'.place == s.place[w.reply := Waiting(k)]
    requires s'.outbox == s.outbox && s'.sent == s.sent
    ensures RepliesConserved(s')
  {
    assert DistinctReplies(before + [w]) by {
      assert !WaitsAt(s, w.reply, k) && !HasReply(before, w.reply);
    }
    forall r, j
      ensures WaitsAt(s', r, j) <==> j in s'.inFlight && HasReply(s'.inFlight[j], r)
    {
      assert WaitsAt(s, r, j) <==> j in s.inFlight && HasReply(s.inFlight[j], r);
      HasReplyAppend(before, [w], r);
      assert [w][0].reply == w.reply;
    }
  }

  lemma RepliesKeptBySweep(s: Loader, k: Key)
    requires RepliesConserved(s)
    ensures RepliesConserved(SweepStep(s, k))
  {
    if k in s.inFlight {
      var s' := SweepStep(s, k);
      var ws, kept := s.inFlight[k], Retain(s.inFlight[k], s.flags);
      RetainKeepsExactlyTheActive(ws, s.flags);
      forall r
        ensures HasReply(kept, r) ==> HasReply(ws, r)
      {
        HasReplyIsMembership(ws, r);
        HasReplyIsMembership(kept, r);
      }
      forall r, j
        ensures WaitsAt(s', r, j) <==> j in s'.inFlight && HasReply(s'.inFlight[j], r)
      {
        assert WaitsAt(s, r, j) <==> j in s.inFlight && HasReply(s.inFlight[j], r);
        assert WaitsAt(s, r, k) <==> HasReply(ws, r);
      }
    }
  }

  /** Taking a key's whole waiter list away moves exactly those replies. */
  lemma SettleMovesTheList(s: Loader, s': Loader, k: Key, target: Place)
    requires RepliesConserved(s) && k in s.inFlight && !target.Waiting?
    requires s'.inFlight == s.inFlight - {k} && s'.place == Settle(s.place, s.inFlight[k], target)
    ensures forall r, j :: WaitsAt(s', r, j) <==> j in s'.inFlight && HasReply(s'.inFlight[j], r)
    ensures forall r :: HasReply(s.inFlight[k], r) ==>
              r in s'.place && s.place[r] == Waiting(k) && s'.place[r] == target
  {
    forall r, j
      ensures WaitsAt(s', r, j) <==> j in s'.inFlight && HasReply(s'.inFlight[j], r)
    {
      assert WaitsAt(s, r, j) <==> j in s.inFlight && HasReply(s.inFlight[j], r);
      assert WaitsAt(s, r, k) <==> HasReply(s.inFlight[k], r);
    }
    forall r | HasReply(s.inFlight[k], r)
      ensures r in s'.place && s.place[r] == Waiting(k) && s'.place[r] == target
    {
      assert WaitsAt(s, r, k);
    }
  }

  lemma RepliesKeptByFinish(s: Loader, k: Key, ok: bool)
    requires RepliesConserved(s) && k in s.inFlight
    ensures RepliesConserved(FinishStep(s, k, ok))
  {
    var s', ws := FinishStep(s, k, ok), s.inFlight[k];
    SettleMovesTheList(s, s', k, if ok then Delivering else Failed);
    if ok {
      forall r
        ensures HasReply(s'.outbox, r) <==> r in s'.place && s'.place[r] == Delivering
      {
        HasReplyAppend(s.outbox, ws, r);
      }
      forall i, j | 0 <= i < |s.outbox| && 0 <= j < |ws|
        ensures s.outbox[i].reply != ws[j].reply
      {
        assert HasReply(s.outbox, s.outbox[i].reply) && HasReply(ws, ws[j].reply);
      }
    }
  }

  lemma RepliesKeptByRollback(s: Loader, s': Loader, k: Key)
    requires RepliesConserved(s) && k in s.inFlight
    requires s' == s.(rejected := s.rejected - {k}, inFlight := s.inFlight - {k},
                      place := Settle(s.place, s.inFlight[k], DroppedByFullQueue))
    ensures RepliesConserved(s')
  {
    SettleMovesTheList(s, s', k, DroppedByFullQueue);
  }

  lemma RepliesKeptByDeliver(s: Loader, i: nat)
    requires RepliesConserved(s) && i < |s.outbox|
    ensures RepliesConserved(DeliverStep(s, i))
  {
    var s', w := DeliverStep(s, i), s.outbox[i];
    assert HasReply(s.outbox, w.reply);
    forall r
      ensures HasReply(s'.outbox, r) <==> HasReply(s.outbox, r) && r != w.reply
    {
      HasReplyWithout(s.outbox, i, r);
    }
    DistinctWithout(s.outbox, i);
    forall r, j
      ensures WaitsAt(s', r, j) <==> j in s'.inFlight && HasReply(s'.inFlight[j], r)
    {
      assert WaitsAt(s, r, j) <==> j in s.inFlight && HasReply(s.inFlight[j], r);
    }
  }

  lemma RepliesKeptByPull(s: Loader, k: Key)
    requires RepliesConserved(s) && k !in s.inFlight
    ensures RepliesConserved(s.(inFlight := s.inFlight[k := []], generating := s.generating + {k}))
  {
    var s' := s.(inFlight := s.inFlight[k := []], generating := s.generating + {k});
    forall r, j
      ensures WaitsAt(s', r, j) <==> j in s'.inFlight && HasReply(s'.inFlight[j], r)
    {
      assert WaitsAt(s, r, j) <==> j in s.inFlight && HasReply(s.inFlight[j], r);
    }
  }

  lemma SameLists(s: Loader, s': Loader)
    requires RepliesConserved(s)
    requires s'.inFlight == s.inFlight && s'.outbox == s.outbox && s'.place == s.place && s'.sent == s.sent
    ensures RepliesConserved(s')
  {
    forall r, j
      ensures WaitsAt(s', r, j) <==> j in s'.inFlight && HasReply(s'.inFlight[j], r)
    {
      assert WaitsAt(s, r, j) <==> j in s.inFlight && HasReply(s.inFlight[j], r);
    }
  }

  lemma RepliesKept(s: Loader, t: Step, capacity: nat)
    requires RepliesConserved(s) && Enabled(s, t)
    ensures RepliesConserved(Apply(s, t, capacity))
  {
    var s' := Apply(s, t, capacity);
    match t
    case Request(k, e, w) => RepliesKeptByRequest(s, k, e, w);
    case RequestCancelled(w) => SameListsNewReply(s, s', w.reply);
    case Rollback(k) => RepliesKeptByRollback(s, s', k);
    case Sweep(k) => RepliesKeptBySweep(s, k);
    case Finish(k, ok) => RepliesKeptByFinish(s, k, ok);
    case Deliver(i) => RepliesKeptByDeliver(s, i);
    case PullBackground(k) => RepliesKeptByPull(s, k);
    case _ => SameLists(s, s');
  }

  lemma SameListsNewReply(s: Loader, s': Loader, r: nat)
    requires RepliesConserved(s) && r !in s.place
    requires s'.inFlight == s.inFlight && s'.outbox == s.outbox && s'.sent == s.sent
    requires s'.place == s.place[r := Cancelled]
    ensures RepliesConserved(s')
  {
    forall r', j
      ensures WaitsAt(s', r', j) <==> j in s'.inFlight && HasReply(s'.inFlight[j], r')
    {
      assert WaitsAt(s, r', j) <==> j in s.inFlight && HasReply(s.inFlight[j], r');
    }
  }

  lemma StepKeepsInv(s: Loader, t: Step, capacity: nat)
    requires Inv(s, capacity) && Enabled(s, t)
    ensures Inv(Apply(s, t, capacity), capacity)
  {
    QueueKept(s, t, capacity);
    RepliesKept(s, t, capacity);
    if t.PopNext? {
      PhasesKeptByPop(s, capacity);
    } else if t.Prioritize? {
      PhasesKeptByBoost(s, t.keys);
    } else {
      PhasesKeptByOthers(s, t, capacity);
    }
  }

  // ---- whole runs ----

  /** `states` is what the interleaved `steps` produce. */
  ghost predicate IsRun(states: seq<Loader>, steps: seq<Step>, capacity: nat) {
    && |states| == |steps| + 1
    && forall i :: 0 <= i < |steps| ==>
         Enabled(states[i], steps[i]) && states[i + 1] == Apply(states[i], steps[i], capacity)
  }

  /**
   In every interleaving the invariant holds throughout: each queued key is backed by a heap entry with
   its tier and job, the queue never exceeds its capacity, no key is in two phases, every key in a phase is
   in flight, and every reply is in exactly one place.
   */
  lemma {:induction false} EveryRunKeepsInv(states: seq<Loader>, steps: seq<Step>, capacity: nat, i: nat)
    requires IsRun(states, steps, capacity) && Inv(states[0], capacity) && i < |states|
    ensures Inv(states[i], capacity)
    decreases i
  {
    if i > 0 {
      EveryRunKeepsInv(states, steps, capacity, i - 1);
      StepKeepsInv(states[i - 1], steps[i - 1], capacity);
    }
  }

  lemma EmptyLoaderIsValid(capacity: nat)
    ensures Inv(EMPTY, capacity)
  {
    assert forall k :: PhaseOf(EMPTY, k);
  }

  /** Some run from the empty loader ends in `s`. */
  ghost predicate Reachable(s: Loader, capacity: nat) {
    exists states, steps :: EndsIn(states, steps, capacity, s)
  }

  ghost predicate EndsIn(states: seq<Loader>, steps: seq<Step>, capacity: nat, s: Loader) {
    IsRun(states, steps, capacity) && states[0] == EMPTY && states[|steps|] == s
  }

  lemma EmptyIsReachable(capacity: nat)
    ensures Reachable(EMPTY, capacity)
  {
    assert EndsIn([EMPTY], [], capacity, EMPTY);
  }

  lemma StepStaysReachable(s: Loader, t: Step, capacity: nat)
    requires Reachable(s, capacity) && Enabled(s, t)
    ensures Reachable(Apply(s, t, capacity), capacity)
  {
    var states, steps :| EndsIn(states, steps, capacity, s);
    var s' := Apply(s, t, capacity);
    assert EndsIn(states + [s'], steps + [t], capacity, s');
  }

  /** The invariant holds in every reachable state. */
  lemma ReachableKeepsInv(s: Loader, capacity: nat)
    requires Reachable(s, capacity)
    ensures Inv(s, capacity)
  {
    var states, steps :| EndsIn(states, steps, capacity, s);
    EmptyLoaderIsValid(capacity);
    EveryRunKeepsInv(states, steps, capacity, |steps|);
  }

  predicate Final(p: Place) {
    p.Answered? || p.Cancelled? || p.Failed? || p.DroppedByFullQueue?
  }

  /** A reply that was settled stays settled the same way; nothing is answered twice or after a drop. */
  lemma FinalPlacesStay(s: Loader, t: Step, capacity: nat, r: nat)
    requires Inv(s, capacity) && Enabled(s, t) && r in s.place && Final(s.place[r])
    ensures var s' := Apply(s, t, capacity); r in s'.place && s'.place[r] == s.place[r]
  {
    forall k
      ensures k in s.inFlight ==> !HasReply(s.inFlight[k], r)
    {
      assert !WaitsAt(s, r, k);
    }
    match t
    case Deliver(i) => assert HasReply(s.outbox, s.outbox[i].reply);
    case Sweep(k) => OthersStayAtSweep(s, k, r);
    case Finish(k, ok) => OthersStayAtFinish(s, k, ok, r);
    case _ =>
  }

  lemma OthersStayAtSweep(s: Loader, k: Key, r: nat)
    requires r in s.place && (k in s.inFlight ==> !HasReply(s.inFlight[k], r))
    ensures r in SweepStep(s, k).place && SweepStep(s, k).place[r] == s.place[r]
  {
  }

  lemma OthersStayAtFinish(s: Loader, k: Key, ok: bool, r: nat)
    requires r in s.place && k in s.inFlight && !HasReply(s.inFlight[k], r)
    ensures r in FinishStep(s, k, ok).place && FinishStep(s, k, ok).place[r] == s.place[r]
  {
  }

  /** No key is in any phase and nothing is left to send. */
  predicate Idle(s: Loader) {
    s.pending == map[] && s.rejected == {} && s.q.queued == map[] && s.generating == {} && s.outbox == []
  }

  /** In an idle loader every reply ever handed in is settled. */
  lemma NoReplyIsForgotten(s: Loader, capacity: nat)
    requires Inv(s, capacity) && Idle(s)
    ensures forall r :: r in s.place ==> Final(s.place[r])
  {
    forall r | r in s.place
      ensures Final(s.place[r])
    {
      if s.place[r].Waiting? {
        assert WaitsAt(s, r, s.place[r].key);
        assert PhaseOf(s, s.place[r].key);
      }
      assert s.place[r] == Delivering <==> HasReply(s.outbox, r);
    }
  }

  // ---- what becomes of a waiter ----

  /** The waiter is where its reply is said to be: in the list of its key, in the outbox, or settled. */
  ghost predicate Held(s: Loader, w: Waiter, k: Key) {
    && w.reply in s.place
    && (s.place[w.reply].Waiting? ==> s.place[w.reply].key == k && k in s.inFlight && w in s.inFlight[k])
    && (s.place[w.reply].Delivering? ==> w in s.outbox)
  }

  /** What a step means for a waiter of `k`. */
  datatype Turn = Finished(ok: bool) | RolledBack | Swept | Served(cancelled: bool) | Nothing

  function TurnOf(s: Loader, t: Step, w: Waiter, k: Key): Turn {
    if t == Rollback(k) then RolledBack
    else if t.Finish? && t.key == k then Finished(t.ok)
    else if t == Sweep(k) && IsCancelled(w, s.flags) then Swept
    else if t.Deliver? && t.index < |s.outbox| && s.outbox[t.index] == w then Served(IsCancelled(w, s.flags))
    else Nothing
  }

  /** Where it takes the reply. */
  function NextPlace(p: Place, turn: Turn): Place {
    match p
    case Waiting(_) =>
      (match turn
       case RolledBack => DroppedByFullQueue
       case Finished(ok) => if ok then Delivering else Failed
       case Swept => Cancelled
       case _ => p)
    case Delivering => if turn.Served? then (if turn.cancelled then Cancelled else Answered) else p
    case _ => p
  }

  ghost predicate MovedTo(s: Loader, w: Waiter, k: Key, p: Place) {
    Held(s, w, k) && s.place[w.reply] == p
  }

  lemma WaiterInList(ws: seq<Waiter>, w: Waiter)
    requires w in ws
    ensures HasReply(ws, w.reply)
    ensures DistinctReplies(ws) ==> forall v :: v in ws && v.reply == w.reply ==> v == w
  {
    var i :| 0 <= i < |ws| && ws[i] == w;
  }

  lemma InListIsHeld(s: Loader, w: Waiter, k: Key)
    requires RepliesConserved(s) && k in s.inFlight && w in s.inFlight[k]
    ensures MovedTo(s, w, k, Waiting(k)) && HasReply(s.inFlight[k], w.reply)
    ensures forall j :: j in s.inFlight && HasReply(s.inFlight[j], w.reply) ==> j == k
    ensures !HasReply(s.outbox, w.reply)
  {
    WaiterInList(s.inFlight[k], w);
    assert WaitsAt(s, w.reply, k);
    forall j | j in s.inFlight && HasReply(s.inFlight[j], w.reply)
      ensures j == k
    {
      assert WaitsAt(s, w.reply, j);
    }
  }

  lemma RollbackMoves(s: Loader, j: Key, capacity: nat, w: Waiter, k: Key)
    requires RepliesConserved(s) && Enabled(s, Rollback(j)) && k in s.inFlight && w in s.inFlight[k]
    ensures MovedTo(Apply(s, Rollback(j), capacity), w, k, if j == k then DroppedByFullQueue else Waiting(k))
  {
    InListIsHeld(s, w, k);
  }

  lemma FinishMoves(s: Loader, j: Key, ok: bool, w: Waiter, k: Key)
    requires RepliesConserved(s) && j in s.inFlight && k in s.inFlight && w in s.inFlight[k]
    ensures MovedTo(FinishStep(s, j, ok), w, k, if j != k then Waiting(k) else if ok then Delivering else Failed)
  {
    InListIsHeld(s, w, k);
  }

  lemma SweepMoves(s: Loader, j: Key, w: Waiter, k: Key)
    requires RepliesConserved(s) && k in s.inFlight && w in s.inFlight[k]
    ensures MovedTo(SweepStep(s, j), w, k, if j == k && IsCancelled(w, s.flags) then Cancelled else Waiting(k))
  {
    InListIsHeld(s, w, k);
    if j == k {
      var kept := Retain(s.inFlight[k], s.flags);
      RetainKeepsExactlyTheActive(s.inFlight[k], s.flags);
      WaiterInList(s.inFlight[k], w);
      HasReplyIsMembership(kept, w.reply);
      assert HasReply(kept, w.reply) <==> !IsCancelled(w, s.flags);
    }
  }

  lemma WaitingStays(s: Loader, t: Step, capacity: nat, w: Waiter, k: Key)
    requires RepliesConserved(s) && Enabled(s, t) && k in s.inFlight && w in s.inFlight[k]
    requires !t.Rollback? && !t.Finish? && !t.Sweep?
    ensures MovedTo(Apply(s, t, capacity), w, k, Waiting(k))
  {
    InListIsHeld(s, w, k);
    if t.Deliver? {
      assert HasReply(s.outbox, s.outbox[t.index].reply);
    }
  }

  lemma WaitingMoves(s: Loader, t: Step, capacity: nat, w: Waiter, k: Key)
    requires RepliesConserved(s) && Enabled(s, t) && k in s.inFlight && w in s.inFlight[k]
    ensures MovedTo(Apply(s, t, capacity), w, k, NextPlace(Waiting(k), TurnOf(s, t, w, k)))
  {
    match t
    case Rollback(j) => RollbackMoves(s, j, capacity, w, k);
    case Finish(j, ok) => FinishMoves(s, j, ok, w, k);
    case Sweep(j) => SweepMoves(s, j, w, k);
    case _ => WaitingStays(s, t, capacity, w, k);
  }

  lemma DeliverMoves(s: Loader, i: nat, w: Waiter, k: Key)
    requires RepliesConserved(s) && i < |s.outbox| && w in s.outbox
    ensures MovedTo(DeliverStep(s, i), w, k,
                    if s.outbox[i] != w then Delivering else if IsCancelled(w, s.flags) then Cancelled else Answered)
  {
    WaiterInList(s.outbox, w);
    assert s.place[w.reply] == Delivering;
    if s.outbox[i] != w {
      var j :| 0 <= j < |s.outbox| && s.outbox[j] == w;
      var left, right := s.outbox[..i], s.outbox[i + 1..];
      assert if j < i then left[j] == w else right[j - i - 1] == w;
    }
  }

  lemma DeliveringStays(s: Loader, t: Step, capacity: nat, w: Waiter, k: Key)
    requires RepliesConserved(s) && Enabled(s, t) && w in s.outbox && !t.Deliver?
    ensures MovedTo(Apply(s, t, capacity), w, k, Delivering)
  {
    WaiterInList(s.outbox, w);
    assert s.place[w.reply] == Delivering;
    forall j
      ensures j in s.inFlight ==> !HasReply(s.inFlight[j], w.reply)
    {
      assert !WaitsAt(s, w.reply, j);
    }
  }

  lemma DeliveringMoves(s: Loader, t: Step, capacity: nat, w: Waiter, k: Key)
    requires RepliesConserved(s) && Enabled(s, t) && w in s.outbox
    ensures MovedTo(Apply(s, t, capacity), w, k, NextPlace(Delivering, TurnOf(s, t, w, k)))
  {
    if t.Deliver? {
      DeliverMoves(s, t.index, w, k);
    } else {
      DeliveringStays(s, t, capacity, w, k);
    }
  }

  lemma SettledMoves(s: Loader, t: Step, capacity: nat, w: Waiter, k: Key)
    requires Inv(s, capacity) && Enabled(s, t) && w.reply in s.place && Final(s.place[w.reply])
    ensures MovedTo(Apply(s, t, capacity), w, k, s.place[w.reply])
  {
    FinalPlacesStay(s, t, capacity, w.reply);
  }

  /** Every step takes a waiter exactly where it should go, and keeps it otherwise. */
  lemma StepMovesWaiter(s: Loader, t: Step, capacity: nat, w: Waiter, k: Key)
    requires Inv(s, capacity) && Enabled(s, t) && Held(s, w, k)
    ensures MovedTo(Apply(s, t, capacity), w, k, NextPlace(s.place[w.reply], TurnOf(s, t, w, k)))
  {
    if s.place[w.reply].Waiting? {
      WaitingMoves(s, t, capacity, w, k);
    } else if s.place[w.reply].Delivering? {
      DeliveringMoves(s, t, capacity, w, k);
    } else {
      SettledMoves(s, t, capacity, w, k);
    }
  }

  /** A request hands its waiter over: answered at once from the cache, or held for its key. */
  lemma RequestIsHeld(s: Loader, capacity: nat, k: Key, e: QueuedEntry, w: Waiter)
    requires Inv(s, capacity) && w.reply !in s.place
    ensures var s' := Apply(s, Request(k, e, w), capacity);
            && MovedTo(s', w, k, if k in s.cached then Answered else Waiting(k))
            && s'.sent == (if k in s.cached then s.sent + [w.reply] else s.sent)
  {
  }

  // ---- the history of one reply ----

  /** The places of a reply, one turn after the other. */
  predicate IsHistory(ps: seq<Place>, ts: seq<Turn>) {
    |ps| == |ts| + 1 && forall i :: 0 <= i < |ts| ==> ps[i + 1] == NextPlace(ps[i], ts[i])
  }

  /** The reply is moved to its last place by some turn. */
  lemma {:induction false} LastMove(ps: seq<Place>, ts: seq<Turn>, i: nat) returns (f: nat)
    requires IsHistory(ps, ts) && i < |ps| && ps[i] != ps[0]
    ensures f < i && ps[f] != ps[i] && ps[i] == NextPlace(ps[f], ts[f])
    decreases i
  {
    f := i - 1;
    if ps[f] == ps[i] {
      f := LastMove(ps, ts, f);
    }
  }

  lemma {:induction false} SettledForGood(ps: seq<Place>, ts: seq<Turn>, f: nat, i: nat)
    requires IsHistory(ps, ts) && f <= i < |ps| && Final(ps[f])
    ensures ps[i] == ps[f]
    decreases i
  {
    if f < i {
      SettledForGood(ps, ts, f, i - 1);
    }
  }

  predicate TakenAt(ps: seq<Place>, ts: seq<Turn>, ok: bool, f: nat) {
    f < |ts| && f < |ps| && ps[f].Waiting? && ts[f] == Finished(ok)
  }

  predicate ServedAt(ps: seq<Place>, ts: seq<Turn>, cancelled: bool, f: nat) {
    f < |ts| && f < |ps| && ps[f].Delivering? && ts[f] == Served(cancelled)
  }

  predicate SweptAt(ps: seq<Place>, ts: seq<Turn>, f: nat) {
    f < |ts| && f < |ps| && ps[f].Waiting? && ts[f] == Swept
  }

  /** How a history ends, by the turns in it. */
  lemma HistoryEnds(ps: seq<Place>, ts: seq<Turn>)
    requires IsHistory(ps, ts) && ps[0].Waiting?
    ensures ps[|ts|].Failed? <==> exists f: nat :: TakenAt(ps, ts, false, f)
    ensures ps[|ts|].Answered? <==> exists f: nat :: ServedAt(ps, ts, false, f)
    ensures ps[|ts|].Cancelled? <==>
            (exists f: nat :: SweptAt(ps, ts, f)) || (exists f: nat :: ServedAt(ps, ts, true, f))
  {
    var n := |ts|;
    if ps[n].Failed? || ps[n].Answered? || ps[n].Cancelled? {
      var f := LastMove(ps, ts, n);
      assert TakenAt(ps, ts, false, f) || SweptAt(ps, ts, f)
          || ServedAt(ps, ts, false, f) || ServedAt(ps, ts, true, f);
    }
    if f: nat :| TakenAt(ps, ts, false, f) {
      SettledForGood(ps, ts, f + 1, n);
    }
    if f: nat :| SweptAt(ps, ts, f) {
      SettledForGood(ps, ts, f + 1, n);
    }
    if f: nat :| ServedAt(ps, ts, false, f) {
      SettledForGood(ps, ts, f + 1, n);
    }
    if f: nat :| ServedAt(ps, ts, true, f) {
      SettledForGood(ps, ts, f + 1, n);
    }
  }

  /** What leaves the outbox has come into it by a generation that ended well. */
  lemma {:induction false} DeliveringWasTaken(ps: seq<Place>, ts: seq<Turn>, i: nat) returns (f: nat)
    requires IsHistory(ps, ts) && ps[0].Waiting? && i < |ps| && ps[i].Delivering?
    ensures f < i && TakenAt(ps, ts, true, f)
  {
    f := LastMove(ps, ts, i);
  }

  lemma {:induction false} TakenIsNotFailed(ps: seq<Place>, ts: seq<Turn>, f: nat, i: nat)
    requires IsHistory(ps, ts) && TakenAt(ps, ts, true, f) && f < i < |ps|
    ensures ps[i].Delivering? || ps[i].Answered? || ps[i].Cancelled?
    decreases i
  {
    if f < i - 1 {
      TakenIsNotFailed(ps, ts, f, i - 1);
    }
  }

  /** A settled reply, neither dropped nor cancelled, was answered exactly if a generation that ended well took it. */
  lemma AnsweredWasTaken(ps: seq<Place>, ts: seq<Turn>)
    requires IsHistory(ps, ts) && ps[0].Waiting?
    requires Final(ps[|ts|]) && !ps[|ts|].DroppedByFullQueue? && !ps[|ts|].Cancelled?
    ensures ps[|ts|].Answered? <==> exists f: nat :: TakenAt(ps, ts, true, f)
  {
    HistoryEnds(ps, ts);
    if ps[|ts|].Answered? {
      var d: nat :| ServedAt(ps, ts, false, d);
      var f := DeliveringWasTaken(ps, ts, d);
    }
    if f: nat :| TakenAt(ps, ts, true, f) {
      TakenIsNotFailed(ps, ts, f, |ts|);
    }
  }

  ghost predicate InvAndHeld(s: Loader, capacity: nat, w: Waiter, k: Key) {
    Inv(s, capacity) && Held(s, w, k)
  }

  lemma StepKeepsHeld(s: Loader, t: Step, capacity: nat, w: Waiter, k: Key)
    requires InvAndHeld(s, capacity, w, k) && Enabled(s, t)
    ensures InvAndHeld(Apply(s, t, capacity), capacity, w, k)
    ensures Apply(s, t, capacity).place[w.reply] == NextPlace(s.place[w.reply], TurnOf(s, t, w, k))
  {
    StepKeepsInv(s, t, capacity);
    StepMovesWaiter(s, t, capacity, w, k);
  }

  lemma {:induction false} WaiterStaysHeld(
    states: seq<Loader>, steps: seq<Step>, capacity: nat, w: Waiter, k: Key, i: nat)
    requires IsRun(states, steps, capacity) && InvAndHeld(states[0], capacity, w, k) && i < |states|
    ensures InvAndHeld(states[i], capacity, w, k)
    decreases i
  {
    if i > 0 {
      WaiterStaysHeld(states, steps, capacity, w, k, i - 1);
      StepKeepsHeld(states[i - 1], steps[i - 1], capacity, w, k);
    }
  }

  /** The history of a waiter's reply in a run. */
  ghost predicate IsHistoryOf(ps: seq<Place>, ts: seq<Turn>, states: seq<Loader>, steps: seq<Step>, w: Waiter, k: Key) {
    && |ps| == |states| && |ts| == |steps| < |states| && IsHistory(ps, ts)
    && (forall i :: 0 <= i < |states| ==> w.reply in states[i].place && states[i].place[w.reply] == ps[i])
    && (forall i :: 0 <= i < |steps| ==> ts[i] == TurnOf(states[i], steps[i], w, k))
    && (forall i :: 0 <= i < |states| && ps[i].Waiting? ==> ps[i].key == k)
    && (forall i :: 0 <= i < |states| && ps[i].Delivering? ==> w in states[i].outbox)
  }

  lemma HistoryOf(states: seq<Loader>, steps: seq<Step>, capacity: nat, w: Waiter, k: Key)
    returns (ps: seq<Place>, ts: seq<Turn>)
    requires IsRun(states, steps, capacity) && InvAndHeld(states[0], capacity, w, k)
    ensures IsHistoryOf(ps, ts, states, steps, w, k)
  {
    forall i | 0 <= i < |states|
      ensures Held(states[i], w, k)
      ensures i < |steps| ==>
                var turn := TurnOf(states[i], steps[i], w, k);
                w.reply in states[i + 1].place
                && states[i + 1].place[w.reply] == NextPlace(states[i].place[w.reply], turn)
    {
      WaiterStaysHeld(states, steps, capacity, w, k, i);
      if i < |steps| {
        StepKeepsHeld(states[i], steps[i], capacity, w, k);
      }
    }
    ps := seq(|states|, i requires 0 <= i < |states| => states[i].place[w.reply]);
    ts := seq(|steps|, i requires 0 <= i < |steps| => TurnOf(states[i], steps[i], w, k));
  }

  /** A generation of `k` that ends well, or does not, takes the waiter out at step `f`. */
  ghost predicate TakenBy(states: seq<Loader>, steps: seq<Step>, w: Waiter, k: Key, ok: bool, f: nat)
    requires |states| == |steps| + 1
  {
    f < |steps| && steps[f] == Finish(k, ok) && WaitsAt(states[f], w.reply, k)
  }

  /** A cancellation sweep takes the waiter out. */
  ghost predicate SweptBy(states: seq<Loader>, steps: seq<Step>, w: Waiter, k: Key, f: nat)
    requires |states| == |steps| + 1
  {
    f < |steps| && steps[f] == Sweep(k) && WaitsAt(states[f], w.reply, k) && IsCancelled(w, states[f].flags)
  }

  /** The waiter's turn in the outbox, with its flag set or not. */
  ghost predicate ServedBy(states: seq<Loader>, steps: seq<Step>, w: Waiter, cancelled: bool, f: nat)
    requires |states| == |steps| + 1
  {
    && f < |steps| && steps[f].Deliver? && steps[f].index < |states[f].outbox|
    && states[f].outbox[steps[f].index] == w && (IsCancelled(w, states[f].flags) <==> cancelled)
  }

  lemma TurnsAreSteps(ps: seq<Place>, ts: seq<Turn>, states: seq<Loader>, steps: seq<Step>, w: Waiter, k: Key, f: nat)
    requires |states| == |steps| + 1 && IsHistoryOf(ps, ts, states, steps, w, k)
    ensures TakenAt(ps, ts, true, f) <==> TakenBy(states, steps, w, k, true, f)
    ensures TakenAt(ps, ts, false, f) <==> TakenBy(states, steps, w, k, false, f)
    ensures SweptAt(ps, ts, f) <==> SweptBy(states, steps, w, k, f)
  {
  }

  lemma ServedAtIsServedBy(ps: seq<Place>, ts: seq<Turn>, states: seq<Loader>, steps: seq<Step>, w: Waiter, k: Key,
                           cancelled: bool, f: nat)
    requires |states| == |steps| + 1 && IsHistoryOf(ps, ts, states, steps, w, k)
    requires f < |states| && RepliesConserved(states[f])
    ensures ServedAt(ps, ts, cancelled, f) <==> ServedBy(states, steps, w, cancelled, f)
  {
    if ServedBy(states, steps, w, cancelled, f) {
      WaiterInList(states[f].outbox, w);
    }
  }

  /**
   What a generation does to those who wait for it. In every run a waiter that is settled, and neither dropped nor
   cancelled, was answered if and only if the generation that took it ended well, and failed if and only if it did
   not. Answered replies are exactly the ones sent.
   */
  lemma GenerationDecides(states: seq<Loader>, steps: seq<Step>, capacity: nat, w: Waiter, k: Key)
    requires IsRun(states, steps, capacity) && Inv(states[0], capacity)
    requires k in states[0].inFlight && w in states[0].inFlight[k]
    ensures w.reply in states[|steps|].place
    ensures var p := states[|steps|].place[w.reply];
            && (p.Failed? <==> exists f: nat :: TakenBy(states, steps, w, k, false, f))
            && (Final(p) && !p.DroppedByFullQueue? && !p.Cancelled? ==>
                  (p.Answered? <==> exists f: nat :: TakenBy(states, steps, w, k, true, f)))
            && (p.Answered? <==> w.reply in states[|steps|].sent)
  {
    InListIsHeld(states[0], w, k);
    var ps, ts := HistoryOf(states, steps, capacity, w, k);
    HistoryEnds(ps, ts);
    forall f: nat
      ensures TakenAt(ps, ts, true, f) <==> TakenBy(states, steps, w, k, true, f)
      ensures TakenAt(ps, ts, false, f) <==> TakenBy(states, steps, w, k, false, f)
    {
      TurnsAreSteps(ps, ts, states, steps, w, k, f);
    }
    var p := ps[|ts|];
    if Final(p) && !p.DroppedByFullQueue? && !p.Cancelled? {
      AnsweredWasTaken(ps, ts);
    }
    EveryRunKeepsInv(states, steps, capacity, |steps|);
  }

  /**
   What a cancellation does. In every run a waiter is answered exactly if its turn in the outbox came with its flag
   not set, and cancelled exactly if that turn came with the flag set, or a sweep found it waiting with the flag set.
   */
  lemma CancellationDecides(states: seq<Loader>, steps: seq<Step>, capacity: nat, w: Waiter, k: Key)
    requires IsRun(states, steps, capacity) && Inv(states[0], capacity)
    requires k in states[0].inFlight && w in states[0].inFlight[k]
    ensures w.reply in states[|steps|].place
    ensures var p := states[|steps|].place[w.reply];
            && (p.Answered? <==> exists f: nat :: ServedBy(states, steps, w, false, f))
            && (p.Cancelled? <==> || (exists f: nat :: SweptBy(states, steps, w, k, f))
                                  || (exists f: nat :: ServedBy(states, steps, w, true, f)))
  {
    InListIsHeld(states[0], w, k);
    var ps, ts := HistoryOf(states, steps, capacity, w, k);
    HistoryEnds(ps, ts);
    forall f: nat
      ensures SweptAt(ps, ts, f) <==> SweptBy(states, steps, w, k, f)
      ensures ServedAt(ps, ts, true, f) <==> ServedBy(states, steps, w, true, f)
      ensures ServedAt(ps, ts, false, f) <==> ServedBy(states, steps, w, false, f)
    {
      TurnsAreSteps(ps, ts, states, steps, w, k, f);
      if f < |steps| {
        EveryRunKeepsInv(states, steps, capacity, f);
        ServedAtIsServedBy(ps, ts, states, steps, w, k, true, f);
        ServedAtIsServedBy(ps, ts, states, steps, w, k, false, f);
      }
    }
  }

  /** Only a generation that ends well caches its key, and it is cached until it is evicted. */
  lemma CachedIff(s: Loader, t: Step, capacity: nat, k: Key)
    requires Enabled(s, t)
    ensures k in Apply(s, t, capacity).cached <==> t == Finish(k, true) || (k in s.cached && t != Evict(k))
  {
  }

  /** Flags are only ever set, and only by their own cancellation. */
  lemma FlagIff(s: Loader, t: Step, capacity: nat, f: nat)
    requires Enabled(s, t)
    ensures f in Apply(s, t, capacity).flags <==> t == SetFlag(f) || f in s.flags
  {
  }

  /** A flag that is set stays set. */
  lemma {:induction false} FlagStays(states: seq<Loader>, steps: seq<Step>, capacity: nat, f: nat, i: nat)
    requires IsRun(states, steps, capacity) && i < |states| && f in states[0].flags
    ensures f in states[i].flags
    decreases i
  {
    if i > 0 {
      FlagStays(states, steps, capacity, f, i - 1);
      FlagIff(states[i - 1], steps[i - 1], capacity, f);
    }
  }

  /** In every run, a waiter whose flag is set while it waits is never answered. */
  lemma CancelledIsNeverAnswered(states: seq<Loader>, steps: seq<Step>, capacity: nat, w: Waiter, k: Key)
    requires IsRun(states, steps, capacity) && Inv(states[0], capacity)
    requires k in states[0].inFlight && w in states[0].inFlight[k] && IsCancelled(w, states[0].flags)
    ensures w.reply in states[|steps|].place && !states[|steps|].place[w.reply].Answered?
  {
    CancellationDecides(states, steps, capacity, w, k);
    forall f: nat
      ensures !ServedBy(states, steps, w, false, f)
    {
      if f < |steps| {
        FlagStays(states, steps, capacity, w.flag.value, f);
      }
    }
  }

  /** A sweep takes a key out of queue and flight exactly if it is queued and nobody active waits for it. */
  lemma SweepDropsKeyIff(s: Loader, k: Key, capacity: nat)
    requires Inv(s, capacity) && k in s.inFlight
    ensures var s' := Apply(s, Sweep(k), capacity);
            && (k !in s'.inFlight <==> k in s.q.queued && forall w :: w in s.inFlight[k] ==> IsCancelled(w, s.flags))
            && (k !in s'.q.queued <==> k !in s.q.queued || k !in s'.inFlight)
  {
    var kept := Retain(s.inFlight[k], s.flags);
    RetainKeepsExactlyTheActive(s.inFlight[k], s.flags);
    if kept != [] {
      assert kept[0] in kept;
    }
  }

  /** In every run, a request for a new key is queued as it was asked for, at its first check if there is room. */
  lemma {:induction false} RequestIsQueuedAsAsked(
    states: seq<Loader>, steps: seq<Step>, capacity: nat, k: Key, e: QueuedEntry, c: nat)
    requires IsRun(states, steps, capacity) && Inv(states[0], capacity) && c < |steps|
    requires k in states[0].pending && states[0].pending[k] == e && IsFirstCheck(steps, k, c)
    ensures |states[c].q.queued| < capacity ==> k in states[c + 1].q.queued && states[c + 1].q.queued[k] == e
  {
    PendingEntryStays(states, steps, capacity, k, c);
  }

  lemma PendingEntryKept(s: Loader, t: Step, capacity: nat, k: Key)
    requires PhaseOf(s, k) && Enabled(s, t) && k in s.pending && t != EnqueueRegistered(k)
    ensures k in Apply(s, t, capacity).pending && Apply(s, t, capacity).pending[k] == s.pending[k]
  {
    UnqueuedKeyStays(s, t, capacity, k);
  }

  lemma {:induction false} PendingEntryStays(states: seq<Loader>, steps: seq<Step>, capacity: nat, k: Key, i: nat)
    requires IsRun(states, steps, capacity) && Inv(states[0], capacity) && i < |states|
    requires k in states[0].pending && NoCheckBefore(steps, k, i)
    ensures k in states[i].pending && states[i].pending[k] == states[0].pending[k]
    decreases i
  {
    if i > 0 {
      PendingEntryStays(states, steps, capacity, k, i - 1);
      var s, t := states[i - 1], steps[i - 1];
      assert states[i] == Apply(s, t, capacity) && Enabled(s, t);
      assert PhaseOf(s, k) by {
        EveryRunKeepsInv(states, steps, capacity, i - 1);
      }
      PendingEntryKept(s, t, capacity, k);
    }
  }

  /** A request registers a key that is neither cached nor in flight, with what was asked. */
  lemma RequestRegisters(s: Loader, capacity: nat, k: Key, e: QueuedEntry, w: Waiter)
    requires Inv(s, capacity) && w.reply !in s.place
    ensures var s' := Apply(s, Request(k, e, w), capacity);
            && s'.pending == (if k !in s.cached && k !in s.inFlight then s.pending[k := e] else s.pending)
            && s'.q == s.q
  {
  }

  // ---- progress ----

  /** The replies that are not settled yet. */
  function Open(s: Loader): set<nat> {
    set r | r in s.place && !Final(s.place[r])
  }

  /** How many steps of progress are left at most. */
  function Work(s: Loader): nat {
    KeyWork(s) + |Open(s)|
  }

  /** The step moves a key to its next phase or settles a reply; a pop does so exactly if something is queued. */
  predicate IsProgress(s: Loader, t: Step) {
    t.EnqueueRegistered? || t.Rollback? || (t.PopNext? && s.q.queued != map[]) || t.Finish? || t.Deliver?
  }

  /** The part of the work that belongs to keys. */
  function KeyWork(s: Loader): nat {
    3 * |s.pending| + 2 * |s.q.queued| + |s.rejected| + |s.generating|
  }

  predicate BringsWork(t: Step) {
    t.Request? || t.PullBackground?
  }

  lemma OpenShrinks(s: Loader, t: Step, capacity: nat)
    requires Inv(s, capacity) && Enabled(s, t) && !BringsWork(t)
    ensures Open(Apply(s, t, capacity)) <= Open(s)
    ensures t.Deliver? ==> s.outbox[t.index].reply in Open(s) - Open(Apply(s, t, capacity))
  {
    forall r | r in s.place && Final(s.place[r])
      ensures r !in Open(Apply(s, t, capacity))
    {
      FinalPlacesStay(s, t, capacity, r);
    }
    if t.Deliver? {
      assert HasReply(s.outbox, s.outbox[t.index].reply);
    }
  }

  lemma KeysLeave(s: Loader, t: Step, capacity: nat)
    requires QueueInv(s.q, capacity) && Enabled(s, t) && !BringsWork(t)
    ensures KeyWork(Apply(s, t, capacity)) + (if IsProgress(s, t) && !t.Deliver? then 1 else 0) <= KeyWork(s)
  {
    match t
    case EnqueueRegistered(k) => EnqueuedKeyLeaves(s, k, capacity);
    case Prioritize(keys) => BoostedKeysStay(s, keys);
    case Sweep(k) => SweptKeyLeaves(s, k);
    case PopNext => PoppedKeyLeaves(s, capacity);
    case Rollback(k) =>
    case Finish(k, ok) => FinishedKeyLeaves(s, k, ok);
    case _ => OtherKeysStay(s, t, capacity);
  }

  lemma FinishedKeyLeaves(s: Loader, k: Key, ok: bool)
    requires k in s.inFlight && k in s.generating
    ensures KeyWork(FinishStep(s, k, ok)) < KeyWork(s)
  {
  }

  lemma OtherKeysStay(s: Loader, t: Step, capacity: nat)
    requires Enabled(s, t)
    requires t.RequestCancelled? || t.SetFlag? || t.Deliver? || t.Evict?
    ensures KeyWork(Apply(s, t, capacity)) == KeyWork(s)
  {
  }

  lemma BoostedKeysStay(s: Loader, keys: seq<Key>)
    ensures KeyWork(s.(q := Boost(s.q, keys))) == KeyWork(s)
  {
    BoostRaisesExactlyTheNamed(s.q, keys);
    assert |Boost(s.q, keys).queued.Keys| == |s.q.queued.Keys|;
  }

  lemma EnqueuedKeyLeaves(s: Loader, k: Key, capacity: nat)
    requires k in s.pending
    ensures KeyWork(EnqueueStep(s, k, capacity)) < KeyWork(s)
  {
    assert (s.pending - {k}).Keys == s.pending.Keys - {k};
    assert s.q.queued[k := s.pending[k]].Keys == s.q.queued.Keys + {k};
  }

  lemma SweptKeyLeaves(s: Loader, k: Key)
    ensures KeyWork(SweepStep(s, k)) <= KeyWork(s)
  {
    assert k in s.q.queued ==> (s.q.queued - {k}).Keys == s.q.queued.Keys - {k};
  }

  lemma PoppedKeyLeaves(s: Loader, capacity: nat)
    requires QueueInv(s.q, capacity)
    ensures KeyWork(PopStep(s)) + (if s.q.queued != map[] then 1 else 0) <= KeyWork(s)
  {
    PopHasNoPriorityInversion(s.q, capacity);
    var r, q' := Pop(s.q).0, Pop(s.q).1;
    if r.Some? {
      assert q'.queued.Keys == s.q.queued.Keys - {r.value.key};
    }
  }

  /** Progress lowers the work that is left, and nothing but a new request or pull raises it. */
  lemma ProgressLowersWork(s: Loader, t: Step, capacity: nat)
    requires Inv(s, capacity) && Enabled(s, t) && !BringsWork(t)
    ensures Work(Apply(s, t, capacity)) + (if IsProgress(s, t) then 1 else 0) <= Work(s)
  {
    KeysLeave(s, t, capacity);
    OpenShrinks(s, t, capacity);
    var open, open' := Open(s), Open(Apply(s, t, capacity));
    SubsetIsSmaller(open', open);
    if t.Deliver? {
      SubsetIsSmaller(open', open - {s.outbox[t.index].reply});
    }
  }

  /** Nothing is left to do exactly in an idle loader, and in any other some step of progress is possible. */
  lemma BusyLoaderCanProgress(s: Loader, capacity: nat)
    requires Inv(s, capacity)
    ensures Work(s) == 0 <==> Idle(s)
    ensures !Idle(s) ==> exists t :: Enabled(s, t) && IsProgress(s, t)
  {
    WorkIsDoneIffIdle(s, capacity);
    if !Idle(s) {
      var t := NextProgress(s);
      assert Enabled(s, t);
    }
  }

  lemma WorkIsDoneIffIdle(s: Loader, capacity: nat)
    requires Inv(s, capacity)
    ensures Work(s) == 0 <==> Idle(s)
  {
    if Idle(s) {
      NoReplyIsForgotten(s, capacity);
      assert Open(s) == {};
    } else if s.outbox != [] {
      assert HasReply(s.outbox, s.outbox[0].reply);
      assert s.outbox[0].reply in Open(s);
    }
  }

  lemma NextProgress(s: Loader) returns (t: Step)
    requires OnePhase(s) && !Idle(s)
    ensures Enabled(s, t) && IsProgress(s, t)
  {
    if s.pending != map[] {
      var k :| k in s.pending;
      return EnqueueRegistered(k);
    }
    if s.rejected != {} {
      var k :| k in s.rejected;
      assert PhaseOf(s, k);
      return Rollback(k);
    }
    if s.generating != {} {
      var k :| k in s.generating;
      assert PhaseOf(s, k);
      return Finish(k, true);
    }
    return if s.outbox != [] then Deliver(0) else PopNext;
  }

  function ProgressIn(states: seq<Loader>, steps: seq<Step>): nat
    requires |states| == |steps| + 1
  {
    if steps == [] then 0
    else (if IsProgress(states[0], steps[0]) then 1 else 0) + ProgressIn(states[1..], steps[1..])
  }

  /**
   Without new requests and pulls, every interleaving makes a bounded number of progress steps; when no more is
   possible the loader is idle, and every reply ever handed in is settled.
   */
  lemma {:induction false} QuietRunSettlesEverything(states: seq<Loader>, steps: seq<Step>, capacity: nat)
    requires IsRun(states, steps, capacity) && Inv(states[0], capacity)
    requires forall t :: t in steps ==> !BringsWork(t)
    ensures ProgressIn(states, steps) + Work(states[|steps|]) <= Work(states[0])
    ensures var last := states[|steps|];
            (forall t :: Enabled(last, t) ==> !IsProgress(last, t)) || ProgressIn(states, steps) == Work(states[0])
            ==> Idle(last) && forall r :: r in last.place ==> Final(last.place[r])
    decreases |steps|
  {
    if steps == [] {
      BusyLoaderCanProgress(states[0], capacity);
      if Idle(states[0]) {
        NoReplyIsForgotten(states[0], capacity);
      }
    } else {
      ProgressLowersWork(states[0], steps[0], capacity);
      StepKeepsInv(states[0], steps[0], capacity);
      QuietRunSettlesEverything(states[1..], steps[1..], capacity);
      assert states[1..][|steps[1..]|] == states[|steps|];
    }
  }

  // ---- joining a request and a full queue ----

  /** `r` waits for `k` past the capacity check, or was settled other than by a full queue. */
  ghost predicate PastTheCapacityCheck(s: Loader, r: nat, k: Key) {
    && r in s.place
    && s.place[r] != DroppedByFullQueue
    && (s.place[r].Waiting? ==> s.place[r].key == k && (k in s.q.queued || k in s.generating))
  }

  lemma PastTheCapacityCheckStays(s: Loader, t: Step, capacity: nat, r: nat, k: Key)
    requires Inv(s, capacity) && Enabled(s, t) && PastTheCapacityCheck(s, r, k)
    ensures PastTheCapacityCheck(Apply(s, t, capacity), r, k)
  {
    forall j
      ensures PhaseOf(s, j)
      ensures j in s.inFlight && HasReply(s.inFlight[j], r) ==> j == k && WaitsAt(s, r, k)
    {
      assert WaitsAt(s, r, j) <==> j in s.inFlight && HasReply(s.inFlight[j], r);
    }
    if WaitsAt(s, r, k) {
      PastTheCheckWhileWaiting(s, t, capacity, r, k);
    } else if Final(s.place[r]) {
      FinalPlacesStay(s, t, capacity, r);
    }
  }

  lemma PastTheCheckWhileWaiting(s: Loader, t: Step, capacity: nat, r: nat, k: Key)
    requires Inv(s, capacity) && Enabled(s, t)
    requires WaitsAt(s, r, k) && (k in s.q.queued || k in s.generating)
    ensures PastTheCapacityCheck(Apply(s, t, capacity), r, k)
  {
    if t.Prioritize? || t.PopNext? {
      PastTheCheckInQueue(s, t, capacity, r, k);
    } else {
      assert PhaseOf(s, k);
      PastTheCheckOutside(s, t, capacity, r, k);
    }
  }

  lemma PastTheCheckOutside(s: Loader, t: Step, capacity: nat, r: nat, k: Key)
    requires RepliesConserved(s) && PhaseOf(s, k) && Enabled(s, t) && !t.Prioritize? && !t.PopNext?
    requires WaitsAt(s, r, k) && (k in s.q.queued || k in s.generating)
    ensures PastTheCapacityCheck(Apply(s, t, capacity), r, k)
  {
    assert k in s.inFlight && HasReply(s.inFlight[k], r);
    if t.Rollback? {
      assert t.key != k && !WaitsAt(s, r, t.key);
    } else if t.Deliver? {
      assert HasReply(s.outbox, s.outbox[t.index].reply);
    } else if t.Finish? {
      assert WaitsAt(s, r, t.key) <==> HasReply(s.inFlight[t.key], r);
    }
  }

  lemma PastTheCheckInQueue(s: Loader, t: Step, capacity: nat, r: nat, k: Key)
    requires QueueInv(s.q, capacity) && (t.Prioritize? || t.PopNext?)
    requires WaitsAt(s, r, k) && (k in s.q.queued || k in s.generating)
    ensures PastTheCapacityCheck(Apply(s, t, capacity), r, k)
  {
    if t.Prioritize? {
      BoostRaisesExactlyTheNamed(s.q, t.keys);
    } else {
      PopHasNoPriorityInversion(s.q, capacity);
    }
  }

  /** Once a reply is past the check, no later step of any run drops it for a full queue. */
  lemma {:induction false} EnqueuedReplyIsNeverDropped(
    states: seq<Loader>, steps: seq<Step>, capacity: nat, r: nat, k: Key, from: nat, i: nat)
    requires IsRun(states, steps, capacity) && Inv(states[0], capacity) && from <= i < |states|
    requires PastTheCapacityCheck(states[from], r, k)
    ensures PastTheCapacityCheck(states[i], r, k)
    decreases i
  {
    if i > from {
      EnqueuedReplyIsNeverDropped(states, steps, capacity, r, k, from, i - 1);
      EveryRunKeepsInv(states, steps, capacity, i - 1);
      PastTheCapacityCheckStays(states[i - 1], steps[i - 1], capacity, r, k);
    }
  }

  /**
   Every reply waiting for a registered key, the joiners included, passes the capacity check exactly when
   the queue has room at that moment; otherwise the rollback drops it.
   */
  lemma WaitersSurviveIffTheQueueHasRoom(s: Loader, capacity: nat, r: nat, k: Key)
    requires Inv(s, capacity) && WaitsAt(s, r, k) && k in s.pending
    ensures var s1 := Apply(s, EnqueueRegistered(k), capacity);
            && (|s.q.queued| < capacity <==> PastTheCapacityCheck(s1, r, k))
            && (|s.q.queued| >= capacity <==>
                Enabled(s1, Rollback(k)) && Apply(s1, Rollback(k), capacity).place[r] == DroppedByFullQueue)
  {
    assert PhaseOf(s, k);
    assert k in s.inFlight && HasReply(s.inFlight[k], r);
  }

  /** `r` waits for a rejected key, or is settled as a rollback or a cancellation settles it. */
  ghost predicate TurnedAway(s: Loader, r: nat, k: Key) {
    && r in s.place
    && (s.place[r].DroppedByFullQueue? || s.place[r].Cancelled? || (s.place[r] == Waiting(k) && k in s.rejected))
  }

  /** `r` waits for a key that is not enqueued yet, or is cancelled. */
  ghost predicate Undecided(s: Loader, r: nat, k: Key) {
    r in s.place && (s.place[r].Cancelled? || (s.place[r] == Waiting(k) && k in s.pending))
  }

  /** Behind the failed check nothing helps: every waiting reply is dropped, even if the queue has room by now. */
  lemma RejectedWaitersAreDropped(s: Loader, capacity: nat, r: nat, k: Key)
    requires Inv(s, capacity) && WaitsAt(s, r, k) && k in s.rejected
    ensures Enabled(s, Rollback(k)) && Apply(s, Rollback(k), capacity).place[r] == DroppedByFullQueue
  {
    assert PhaseOf(s, k);
    assert k in s.inFlight && HasReply(s.inFlight[k], r);
  }

  /** That includes a request that joins between the failed check and the rollback. */
  lemma JoinerOfRejectedKeyIsDropped(s: Loader, capacity: nat, k: Key, e: QueuedEntry, w: Waiter)
    requires Inv(s, capacity) && k in s.rejected && k !in s.cached && w.reply !in s.place
    ensures var s1 := Apply(s, Request(k, e, w), capacity);
            Enabled(s1, Rollback(k)) && Apply(s1, Rollback(k), capacity).place[w.reply] == DroppedByFullQueue
  {
    assert PhaseOf(s, k);
    StepKeepsInv(s, Request(k, e, w), capacity);
    RejectedWaitersAreDropped(Apply(s, Request(k, e, w), capacity), capacity, w.reply, k);
  }

  lemma TurnedAwayStays(s: Loader, t: Step, capacity: nat, r: nat, k: Key)
    requires Inv(s, capacity) && Enabled(s, t) && TurnedAway(s, r, k)
    ensures TurnedAway(Apply(s, t, capacity), r, k)
  {
    if Final(s.place[r]) {
      FinalPlacesStay(s, t, capacity, r);
    } else {
      assert PhaseOf(s, k);
      WaitingReplyMoves(s, t, capacity, r, k);
      UnqueuedKeyStays(s, t, capacity, k);
    }
  }

  lemma UndecidedStays(s: Loader, t: Step, capacity: nat, r: nat, k: Key)
    requires Inv(s, capacity) && Enabled(s, t) && Undecided(s, r, k) && t != EnqueueRegistered(k)
    ensures Undecided(Apply(s, t, capacity), r, k)
  {
    if Final(s.place[r]) {
      FinalPlacesStay(s, t, capacity, r);
    } else {
      assert PhaseOf(s, k);
      WaitingReplyMoves(s, t, capacity, r, k);
      UnqueuedKeyStays(s, t, capacity, k);
    }
  }

  /** Before its key is queued a reply can only be cancelled or dropped. */
  lemma WaitingReplyMoves(s: Loader, t: Step, capacity: nat, r: nat, k: Key)
    requires Inv(s, capacity) && Enabled(s, t) && WaitsAt(s, r, k) && (k in s.pending || k in s.rejected)
    ensures var s' := Apply(s, t, capacity);
            && r in s'.place
            && (s'.place[r] == (if t == Rollback(k) then DroppedByFullQueue else s.place[r]) || s'.place[r].Cancelled?)
  {
    assert PhaseOf(s, k);
    assert k in s.inFlight && HasReply(s.inFlight[k], r);
    if t.Rollback? || t.Finish? || t.Sweep? {
      assert WaitsAt(s, r, t.key) <==> t.key in s.inFlight && HasReply(s.inFlight[t.key], r);
    } else if t.Deliver? {
      assert HasReply(s.outbox, s.outbox[t.index].reply);
    }
  }

  lemma UnqueuedKeyStays(s: Loader, t: Step, capacity: nat, k: Key)
    requires Enabled(s, t)
    ensures var s' := Apply(s, t, capacity);
            && (k in s.pending && t != EnqueueRegistered(k) ==> k in s'.pending)
            && (k in s.rejected && t != Rollback(k) ==> k in s'.rejected)
  {
    assert t.EnqueueRegistered? && t.key != k ==> (k in s.pending ==> k in s.pending - {t.key});
  }

  predicate NoCheckBefore(steps: seq<Step>, k: Key, i: nat) {
    i <= |steps| && forall j :: 0 <= j < i ==> steps[j] != EnqueueRegistered(k)
  }

  /** Step `c` is the capacity check of the registration that is pending at the start. */
  predicate IsFirstCheck(steps: seq<Step>, k: Key, c: nat) {
    c < |steps| && steps[c] == EnqueueRegistered(k) && NoCheckBefore(steps, k, c)
  }

  /** The registration of `k` has failed its capacity check at the start, or fails it in this run. */
  ghost predicate FindsQueueFull(states: seq<Loader>, steps: seq<Step>, capacity: nat, k: Key)
    requires |states| == |steps| + 1
  {
    || k in states[0].rejected
    || (k in states[0].pending && exists c: nat :: IsFirstCheck(steps, k, c) && |states[c].q.queued| >= capacity)
  }

  lemma {:induction false} UndecidedUntilTheCheck(
    states: seq<Loader>, steps: seq<Step>, capacity: nat, r: nat, k: Key, i: nat)
    requires IsRun(states, steps, capacity) && Inv(states[0], capacity) && i < |states|
    requires Undecided(states[0], r, k) && NoCheckBefore(steps, k, i)
    ensures Undecided(states[i], r, k)
    decreases i
  {
    if i > 0 {
      UndecidedUntilTheCheck(states, steps, capacity, r, k, i - 1);
      EveryRunKeepsInv(states, steps, capacity, i - 1);
      var s, t := states[i - 1], steps[i - 1];
      assert states[i] == Apply(s, t, capacity);
      UndecidedStays(s, t, capacity, r, k);
    }
  }

  lemma {:induction false} TurnedAwayForGood(
    states: seq<Loader>, steps: seq<Step>, capacity: nat, r: nat, k: Key, from: nat, i: nat)
    requires IsRun(states, steps, capacity) && Inv(states[0], capacity) && from <= i < |states|
    requires TurnedAway(states[from], r, k)
    ensures TurnedAway(states[i], r, k)
    decreases i
  {
    if i > from {
      TurnedAwayForGood(states, steps, capacity, r, k, from, i - 1);
      EveryRunKeepsInv(states, steps, capacity, i - 1);
      TurnedAwayStays(states[i - 1], steps[i - 1], capacity, r, k);
    }
  }

  /** The capacity check decides. */
  lemma CheckDecides(s: Loader, capacity: nat, r: nat, k: Key)
    requires Inv(s, capacity) && Undecided(s, r, k) && k in s.pending
    ensures var s' := Apply(s, EnqueueRegistered(k), capacity);
            if |s.q.queued| >= capacity then TurnedAway(s', r, k) else PastTheCapacityCheck(s', r, k)
  {
  }

  lemma {:induction false} PendingUntilTheCheck(states: seq<Loader>, steps: seq<Step>, capacity: nat, k: Key, i: nat)
    requires IsRun(states, steps, capacity) && i < |states| && k in states[0].pending
    requires NoCheckBefore(steps, k, i)
    ensures k in states[i].pending
    decreases i
  {
    if i > 0 {
      PendingUntilTheCheck(states, steps, capacity, k, i - 1);
      UnqueuedKeyStays(states[i - 1], steps[i - 1], capacity, k);
    }
  }

  /** What the run does to `r` after a check at step `c`. */
  lemma AfterTheCheck(states: seq<Loader>, steps: seq<Step>, capacity: nat, r: nat, k: Key, c: nat)
    requires IsRun(states, steps, capacity) && Inv(states[0], capacity)
    requires Undecided(states[0], r, k) && k in states[0].pending && IsFirstCheck(steps, k, c)
    ensures if |states[c].q.queued| >= capacity then TurnedAway(states[|steps|], r, k)
            else PastTheCapacityCheck(states[|steps|], r, k)
  {
    UndecidedUntilTheCheck(states, steps, capacity, r, k, c);
    PendingUntilTheCheck(states, steps, capacity, k, c);
    EveryRunKeepsInv(states, steps, capacity, c);
    CheckDecides(states[c], capacity, r, k);
    if |states[c].q.queued| >= capacity {
      TurnedAwayForGood(states, steps, capacity, r, k, c + 1, |steps|);
    } else {
      EnqueuedReplyIsNeverDropped(states, steps, capacity, r, k, c + 1, |steps|);
    }
  }

  lemma FirstCheckExists(steps: seq<Step>, k: Key)
    requires EnqueueRegistered(k) in steps
    ensures exists c: nat :: IsFirstCheck(steps, k, c)
    decreases |steps|
  {
    var n := |steps| - 1;
    if EnqueueRegistered(k) in steps[..n] {
      FirstCheckExists(steps[..n], k);
      var c: nat :| IsFirstCheck(steps[..n], k, c);
      assert IsFirstCheck(steps, k, c);
    } else {
      assert forall j :: 0 <= j < n ==> steps[j] in steps[..n];
      assert IsFirstCheck(steps, k, n);
    }
  }

  lemma PendingReplyIsTurnedAwayIff(states: seq<Loader>, steps: seq<Step>, capacity: nat, r: nat, k: Key)
    requires IsRun(states, steps, capacity) && Inv(states[0], capacity)
    requires Undecided(states[0], r, k) && k in states[0].pending && k !in states[0].rejected
    ensures if FindsQueueFull(states, steps, capacity, k) then TurnedAway(states[|steps|], r, k)
            else PastTheCapacityCheck(states[|steps|], r, k) || Undecided(states[|steps|], r, k)
  {
    if EnqueueRegistered(k) in steps {
      FirstCheckExists(steps, k);
      var c: nat :| IsFirstCheck(steps, k, c);
      assert forall b: nat :: IsFirstCheck(steps, k, b) ==> b == c;
      AfterTheCheck(states, steps, capacity, r, k, c);
    } else {
      UndecidedUntilTheCheck(states, steps, capacity, r, k, |steps|);
    }
  }

  /**
   When a waiting reply is dropped for a full queue, whoever registered its key and in whatever phase the key is: in
   every run, a settled reply that was not cancelled was dropped exactly if the registration failed its check.
   */
  lemma WaitingReplyIsDroppedIff(states: seq<Loader>, steps: seq<Step>, capacity: nat, r: nat, k: Key)
    requires IsRun(states, steps, capacity) && Inv(states[0], capacity) && WaitsAt(states[0], r, k)
    ensures var last := states[|steps|];
            && r in last.place
            && (FindsQueueFull(states, steps, capacity, k) ==> TurnedAway(last, r, k))
            && (last.place[r].DroppedByFullQueue? <==>
                  && FindsQueueFull(states, steps, capacity, k)
                  && Final(last.place[r]) && !last.place[r].Cancelled?)
  {
    var first, n := states[0], |steps|;
    assert PhaseOf(first, k);
    assert k in first.inFlight && HasReply(first.inFlight[k], r);
    if k in first.rejected {
      TurnedAwayForGood(states, steps, capacity, r, k, 0, n);
    } else if k !in first.pending {
      EnqueuedReplyIsNeverDropped(states, steps, capacity, r, k, 0, n);
    } else {
      PendingReplyIsTurnedAwayIff(states, steps, capacity, r, k);
    }
  }

  /** A registration of `k` with the given waiters, all waiting, before anything else happened. */
  function Joined(k: Key, e: QueuedEntry, ws: seq<Waiter>, place: map<nat, Place>): Loader {
    EMPTY.(inFlight := map[k := ws], pending := map[k := e], place := place)
  }

  lemma JoinTwice(k: Key, e: QueuedEntry)
    ensures Apply(EMPTY, Request(k, e, Waiter(0, None)), 0) == Joined(k, e, [Waiter(0, None)], map[0 := Waiting(k)])
    ensures Apply(Joined(k, e, [Waiter(0, None)], map[0 := Waiting(k)]), Request(k, e, Waiter(1, None)), 0)
         == Joined(k, e, [Waiter(0, None), Waiter(1, None)], map[0 := Waiting(k), 1 := Waiting(k)])
  {
    var s := Joined(k, e, [Waiter(0, None)], map[0 := Waiting(k)]);
    assert s.inFlight[k] + [Waiter(1, None)] == [Waiter(0, None), Waiter(1, None)];
    assert s.place[1 := Waiting(k)] == map[0 := Waiting(k), 1 := Waiting(k)];
    assert s.inFlight[k := [Waiter(0, None), Waiter(1, None)]] == map[k := [Waiter(0, None), Waiter(1, None)]];
  }

  lemma DropBoth(k: Key, s: Loader)
    requires s.inFlight == map[k := [Waiter(0, None), Waiter(1, None)]] && k in s.rejected
    requires s.place == map[0 := Waiting(k), 1 := Waiting(k)]
    ensures Apply(s, Rollback(k), 0).place == map[0 := DroppedByFullQueue, 1 := DroppedByFullQueue]
  {
    var ws := s.inFlight[k];
    assert ws[0].reply == 0 && ws[1].reply == 1;
    assert HasReply(ws, 0) && HasReply(ws, 1);
  }

  /**
   A joiner can be dropped although duplicates are documented as never dropped: it joins after the
   registration and before the enqueue that finds the queue full.
   */
  lemma JoinerDroppedByFullQueue(k: Key, e: QueuedEntry)
    ensures var s1 := Apply(EMPTY, Request(k, e, Waiter(0, None)), 0);
            && Enabled(s1, Request(k, e, Waiter(1, None)))
            && var s2 := Apply(s1, Request(k, e, Waiter(1, None)), 0);
            && s2.inFlight == map[k := [Waiter(0, None), Waiter(1, None)]]
            && Enabled(s2, EnqueueRegistered(k))
            && var s3 := Apply(s2, EnqueueRegistered(k), 0);
            && Enabled(s3, Rollback(k))
            && Apply(s3, Rollback(k), 0).place == map[0 := DroppedByFullQueue, 1 := DroppedByFullQueue]
  {
    JoinTwice(k, e);
    var s2 := Joined(k, e, [Waiter(0, None), Waiter(1, None)], map[0 := Waiting(k), 1 := Waiting(k)]);
    DropBoth(k, Apply(s2, EnqueueRegistered(k), 0));
  }
}
