/**
 The loader object: its mutable fields, and one method per lock section. `model` is the state-machine
 state the fields show; each method performs exactly one step of that machine.
 */
module ThumbnailService {
  import opened Basics
  import opened ThumbnailQueue
  import opened ThumbnailLoader

  datatype RequestOutcome = MemoryHit | JoinedInFlight | Registered

  class Service {
    const capacity: nat
    // under the queue lock
    var heap: set<PriItem>
    var queued: map<Key, QueuedEntry>
    var seqNo: nat
    // under the state lock
    var inFlight: map<Key, seq<Waiter>>
    var cached: set<Key>
    // shared cancellation flags that are set
    var flags: set<nat>

    ghost var model: Loader

    ghost predicate Valid()
      reads this
    {
      && Reachable(model, capacity)
      && model.q == Queue(heap, queued, seqNo)
      && model.inFlight == inFlight && model.cached == cached && model.flags == flags
    }

    constructor (capacity: nat)
      ensures Valid() && this.capacity == capacity && model == EMPTY
    {
      this.capacity := capacity;
      heap, queued, seqNo := {}, map[], 0;
      inFlight, cached, flags := map[], {}, {};
      model := EMPTY;
      new;
      EmptyIsReachable(capacity);
    }

    /** The state section of a request: memory hit, join, or register. */
    method Register(key: Key, entry: QueuedEntry, waiter: Waiter) returns (outcome: RequestOutcome)
      requires Valid() && waiter.reply !in model.place
      modifies this
      ensures Valid() && model == Apply(old(model), Request(key, entry, waiter), capacity)
      ensures outcome.MemoryHit? <==> key in old(cached)
      ensures outcome.Registered? <==> key !in old(cached) && key !in old(inFlight)
      ensures outcome.Registered? <==> key !in old(model).pending && key in model.pending
    {
      assert PhaseOf(model, key) by {
        ReachableKeepsInv(model, capacity);
      }
      StepStaysReachable(model, Request(key, entry, waiter), capacity);
      model := Apply(model, Request(key, entry, waiter), capacity);
      if key in cached {
        outcome := MemoryHit;
      } else if key in inFlight {
        inFlight := inFlight[key := inFlight[key] + [waiter]];
        outcome := JoinedInFlight;
      } else {
        inFlight := inFlight[key := [waiter]];
        outcome := Registered;
      }
    }

    ghost function QueueView(): Queue
      reads this
    {
      Queue(heap, queued, seqNo)
    }

    /** Pushes an entry and records its key. */
    method Push(key: Key, entry: QueuedEntry)
      modifies `heap, `queued, `seqNo
      ensures QueueView() == Enqueue(old(QueueView()), key, entry)
    {
      seqNo := seqNo + 1;
      queued := queued[key := entry];
      heap := heap + {PriItem(entry.tier, seqNo, key, entry.job)};
    }

    /** The queue section of a request. */
    method EnqueueNew(key: Key, entry: QueuedEntry) returns (enqueued: bool)
      requires Valid() && key in model.pending && model.pending[key] == entry
      modifies this
      ensures Valid() && model == Apply(old(model), EnqueueRegistered(key), capacity)
      ensures enqueued <==> |old(queued)| < capacity
      ensures if enqueued then key in queued && queued[key] == entry else key in model.rejected && queued == old(queued)
    {
      StepStaysReachable(model, EnqueueRegistered(key), capacity);
      model := Apply(model, EnqueueRegistered(key), capacity);
      if |queued| >= capacity {
        enqueued := false;
      } else {
        Push(key, entry);
        enqueued := true;
      }
    }

    /** The state section that undoes a registration the queue had no room for. */
    method RollbackRegistration(key: Key)
      requires Valid() && key in model.rejected
      modifies this
      ensures old(Enabled(model, Rollback(key)))
      ensures Valid() && model == Apply(old(model), Rollback(key), capacity)
      ensures key !in inFlight
    {
      assert PhaseOf(model, key) by {
        ReachableKeepsInv(model, capacity);
      }
      StepStaysReachable(model, Rollback(key), capacity);
      model := Apply(model, Rollback(key), capacity);
      inFlight := inFlight - {key};
    }

    /** The loop of `PrioritizeKeys`. */
    method BoostLoop(keys: seq<Key>)
      modifies `heap, `queued, `seqNo
      ensures QueueView() == Boost(old(QueueView()), keys)
    {
      for i := 0 to |keys|
        invariant QueueView() == Boost(old(QueueView()), keys[..i])
      {
        assert keys[..i + 1][..i] == keys[..i];
        var key := keys[i];
        if key in queued && queued[key].tier != TIER_BOOST {
          Push(key, queued[key].(tier := TIER_BOOST));
        }
      }
      assert keys[..|keys|] == keys;
    }

    /** Raises the named keys that are still queued to the boost tier. */
    method PrioritizeKeys(keys: seq<Key>)
      requires Valid()
      modifies this
      ensures Valid() && model == Apply(old(model), Prioritize(keys), capacity)
      ensures queued.Keys == old(queued.Keys)
      ensures forall k :: k in queued ==> Boosted(old(queued)[k], queued[k], k in keys)
    {
      StepStaysReachable(model, Prioritize(keys), capacity);
      BoostRaisesExactlyTheNamed(model.q, keys);
      model := Apply(model, Prioritize(keys), capacity);
      BoostLoop(keys);
    }

    /** Drops the cancelled waiters of an in-flight key, and the key itself if it is queued and none is left. */
    method RetainActive(key: Key)
      requires key in inFlight
      modifies `queued, `inFlight
      ensures var kept := Retain(old(inFlight)[key], flags);
        if kept == [] && key in old(queued)
        then queued == old(queued) - {key} && inFlight == old(inFlight) - {key}
        else queued == old(queued) && inFlight == old(inFlight)[key := kept]
    {
      var kept := Retain(inFlight[key], flags);
      if kept == [] && key in queued {
        queued := queued - {key};
        inFlight := inFlight - {key};
      } else {
        inFlight := inFlight[key := kept];
      }
    }

    /** The state and queue sections of a cancellation. */
    method SweepCancelled(key: Key)
      requires Valid()
      modifies this
      ensures Valid() && model == Apply(old(model), Sweep(key), capacity)
    {
      StepStaysReachable(model, Sweep(key), capacity);
      model := Apply(model, Sweep(key), capacity);
      if key in inFlight {
        RetainActive(key);
      }
    }

    /** Sets the flag, drops the cancelled waiters of `key`, and unqueues it when none is left. */
    method CancelRequest(key: Key, flag: nat)
      requires Valid()
      modifies this
      ensures Valid()
      ensures model == Apply(Apply(old(model), SetFlag(flag), capacity), Sweep(key), capacity)
    {
      StepStaysReachable(model, SetFlag(flag), capacity);
      model := Apply(model, SetFlag(flag), capacity);
      flags := flags + {flag};
      SweepCancelled(key);
    }

    /** The loop of `NextRequest`. */
    method PopLoop() returns (r: Option<PriItem>)
      requires UniqueNumbers(QueueView())
      modifies `heap, `queued
      ensures (r, QueueView()) == Pop(old(QueueView()))
    {
      while heap != {}
        invariant Pop(QueueView()) == Pop(old(QueueView()))
        invariant UniqueNumbers(QueueView())
        decreases |heap|
      {
        FirstExists(heap);
        var m :| m in heap && forall j :: j in heap ==> !Precedes(j, m);
        PopTakesTheFirst(QueueView(), m);
        heap := heap - {m};
        if m.key in queued && queued[m.key].tier == m.tier {
          queued := queued - {m.key};
          return Some(m);
        }
      }
      r := None;
    }

    /** A worker pops until it accepts an item; stale entries are discarded. */
    method NextRequest() returns (r: Option<PriItem>)
      requires Valid()
      modifies this
      ensures Valid() && model == Apply(old(model), PopNext, capacity)
      ensures r == Pop(old(model).q).0 && PopsInOrder(old(model).q, r, model.q, capacity)
    {
      PopsReachableInOrder(model, capacity);
      StepStaysReachable(model, PopNext, capacity);
      model := Apply(model, PopNext, capacity);
      r := PopLoop();
    }

    /** A worker is done: remember the thumbnail if there is one and take the waiters out. */
    method FinishGeneration(key: Key, ok: bool) returns (waiters: seq<Waiter>)
      requires Valid() && key in model.generating
      modifies this
      ensures old(Enabled(model, Finish(key, ok)))
      ensures Valid() && model == Apply(old(model), Finish(key, ok), capacity)
      ensures key in old(inFlight) && waiters == old(inFlight)[key]
    {
      assert PhaseOf(model, key) by {
        ReachableKeepsInv(model, capacity);
      }
      StepStaysReachable(model, Finish(key, ok), capacity);
      model := Apply(model, Finish(key, ok), capacity);
      waiters := inFlight[key];
      inFlight := inFlight - {key};
      if ok {
        cached := cached + {key};
      }
    }
  }

  lemma PopsReachableInOrder(s: Loader, capacity: nat)
    requires Reachable(s, capacity)
    ensures UniqueNumbers(s.q) && PopsInOrder(s.q, Pop(s.q).0, Pop(s.q).1, capacity)
  {
    ReachableKeepsInv(s, capacity);
    PopHasNoPriorityInversion(s.q, capacity);
  }

  lemma PopTakesTheFirst(q: Queue, m: PriItem)
    requires UniqueNumbers(q) && IsFirst(q.heap, m)
    ensures Pop(q) == (
      var rest := q.(heap := q.heap - {m});
      if Live(q, m) then (Some(m), rest.(queued := q.queued - {m.key})) else Pop(rest))
  {
    forall x | IsFirst(q.heap, x)
      ensures x == m
    {
      FirstIsUnique(q, x, m);
    }
  }
}
