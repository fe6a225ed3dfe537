/** The single-writer database actor: a priority queue fed from a channel, one command at a time. */
module DbActor {
  import opened Basics

  /** A command with its write urgency; larger runs first. `body` stands for the command and its reply channel. */
  datatype Command = Command(priority: nat, body: nat)

  datatype Queued = Queued(sequence: nat, command: Command)

  /** The heap's order: higher priority, then lower sequence number. */
  predicate Beats(a: Queued, b: Queued) {
    || a.command.priority > b.command.priority
    || (a.command.priority == b.command.priority && a.sequence < b.sequence)
  }

  /** All commands received in the first turns, in arrival order. */
  function Received(turns: seq<seq<Command>>): seq<Command> {
    if turns == [] then [] else Received(turns[..|turns| - 1]) + turns[|turns| - 1]
  }

  /** Entry `n` is the n-th command received. */
  predicate Faithful(all: seq<Command>, q: Queued) {
    q.sequence < |all| && q.command == all[q.sequence]
  }

  /**
   A schedule of `all`: `log` are the executed commands in order, and `seen[i]` is how many had been received
   when the i-th was executed. No command runs twice, none before it was received, and none while a
   more urgent one, or an earlier one as urgent, is waiting.
   */
  predicate IsSchedule(all: seq<Command>, log: seq<Queued>, seen: seq<nat>) {
    && |log| == |seen|
    && (forall i :: 0 <= i < |log| ==> Faithful(all, log[i]) && log[i].sequence < seen[i] <= |all|)
    && (forall i, j :: 0 <= i < j < |log| ==> log[i].sequence != log[j].sequence && seen[i] <= seen[j])
    && (forall i, j :: 0 <= i < j < |log| && log[j].sequence < seen[i] ==> Beats(log[i], log[j]))
  }

  predicate InLog(log: seq<Queued>, n: nat) {
    exists i :: 0 <= i < |log| && log[i].sequence == n
  }

  /** The heap holds exactly what was received and not executed yet. */
  predicate Pending(all: seq<Command>, log: seq<Queued>, queue: set<Queued>) {
    && (forall q :: q in queue ==> Faithful(all, q) && !InLog(log, q.sequence))
    && (forall n :: 0 <= n < |all| && !InLog(log, n) ==> Queued(n, all[n]) in queue)
  }

  /** Nothing waiting precedes what has already run before it arrived. */
  predicate Respected(log: seq<Queued>, seen: seq<nat>, queue: set<Queued>)
    requires |log| == |seen|
  {
    forall i, q :: 0 <= i < |log| && q in queue && q.sequence < seen[i] ==> Beats(log[i], q)
  }

  predicate MostUrgent(queue: set<Queued>, m: Queued) {
    m in queue && forall q :: q in queue && q != m ==> Beats(m, q)
  }

  predicate UniqueSequences(queue: set<Queued>) {
    forall a, b :: a in queue && b in queue && a.sequence == b.sequence ==> a == b
  }

  lemma MostUrgentExists(queue: set<Queued>)
    requires queue != {} && UniqueSequences(queue)
    ensures exists m :: MostUrgent(queue, m)
    decreases |queue|
  {
    var x :| x in queue;
    if queue == {x} {
      assert MostUrgent(queue, x);
    } else {
      var rest := queue - {x};
      MostUrgentExists(rest);
      var m :| MostUrgent(rest, m);
      assert x.sequence != m.sequence;
      forall q | q in queue && q != x && q != m
        ensures Beats(m, q)
      {
        assert q in rest;
      }
      if Beats(x, m) {
        assert MostUrgent(queue, x);
      } else {
        assert MostUrgent(queue, m);
      }
    }
  }

  lemma PendingIsUnique(all: seq<Command>, log: seq<Queued>, queue: set<Queued>)
    requires Pending(all, log, queue)
    ensures UniqueSequences(queue)
  {
  }

  /** Executing the most urgent waiting command extends the schedule. */
  lemma ExecuteExtends(all: seq<Command>, log: seq<Queued>, seen: seq<nat>, queue: set<Queued>, m: Queued)
    requires IsSchedule(all, log, seen) && Pending(all, log, queue) && Respected(log, seen, queue)
    requires MostUrgent(queue, m)
    ensures IsSchedule(all, log + [m], seen + [|all|])
    ensures Pending(all, log + [m], queue - {m})
    ensures Respected(log + [m], seen + [|all|], queue - {m})
  {
    ExecutePending(all, log, queue, m);
    var log', seen' := log + [m], seen + [|all|];
    forall i, j | 0 <= i < j < |log'|
      ensures log'[i].sequence != log'[j].sequence && seen'[i] <= seen'[j]
      ensures log'[j].sequence < seen'[i] ==> Beats(log'[i], log'[j])
    {
      if j == |log| {
        assert log[i].sequence == log'[i].sequence;
        assert !InLog(log, m.sequence);
      }
    }
  }

  lemma ExecutePending(all: seq<Command>, log: seq<Queued>, queue: set<Queued>, m: Queued)
    requires Pending(all, log, queue) && m in queue
    ensures Pending(all, log + [m], queue - {m})
  {
    var log' := log + [m];
    forall n: nat
      ensures InLog(log', n) <==> InLog(log, n) || n == m.sequence
    {
      if i :| 0 <= i < |log| && log[i].sequence == n {
        assert log'[i].sequence == n;
      }
      assert log'[|log|] == m;
    }
  }

  /** What is received, executed and waiting fits together. */
  ghost predicate Consistent(all: seq<Command>, log: seq<Queued>, seen: seq<nat>, queue: set<Queued>) {
    IsSchedule(all, log, seen) && Pending(all, log, queue) && Respected(log, seen, queue)
  }

  /** Receiving one more command. */
  lemma ReceiveExtends(all: seq<Command>, c: Command, log: seq<Queued>, seen: seq<nat>, queue: set<Queued>)
    requires Consistent(all, log, seen, queue)
    ensures Consistent(all + [c], log, seen, queue + {Queued(|all|, c)})
  {
    assert !InLog(log, |all|);
  }

  /** Received with one more turn. */
  lemma ReceivedMore(turns: seq<seq<Command>>, i: nat)
    requires i < |turns|
    ensures Received(turns[..i + 1]) == Received(turns[..i]) + turns[i]
  {
    assert turns[..i + 1][..i] == turns[..i];
  }

  class Actor {
    var queue: set<Queued>
    var sequence: nat
    ghost var all: seq<Command>
    var log: seq<Queued>
    ghost var seen: seq<nat>

    ghost predicate Valid()
      reads this
    {
      && Consistent(all, log, seen, queue)
      && sequence == |all| % U64_RANGE && |all| <= U64_RANGE
    }

    constructor ()
      ensures Valid() && all == [] && log == []
    {
      queue, sequence, all, log, seen := {}, 0, [], [], [];
    }

    /** One `recv` or `try_recv` that yields a command. */
    method Push(c: Command)
      requires Valid() && |all| < U64_RANGE
      modifies this
      ensures Valid() && all == old(all) + [c] && log == old(log) && seen == old(seen) && queue != {}
    {
      ReceiveExtends(all, c, log, seen, queue);
      assert sequence == |all|;
      queue := queue + {Queued(sequence, c)};
      sequence := (sequence + 1) % U64_RANGE;
      all := all + [c];
    }

    method Pop() returns (m: Queued)
      requires queue != {} && UniqueSequences(queue)
      modifies `queue
      ensures MostUrgent(old(queue), m) && queue == old(queue) - {m}
    {
      MostUrgentExists(queue);
      m :| m in queue && MostUrgent(queue, m);
      queue := queue - {m};
    }

    /** Pop the most urgent command, execute it and reply. */
    method ExecuteNext()
      requires Valid() && queue != {}
      modifies this
      ensures Valid() && all == old(all) && |log| == |old(log)| + 1 && log == old(log) + [log[|old(log)|]]
      ensures seen == old(seen) + [|all|]
      ensures MostUrgent(old(queue), log[|old(log)|]) && queue == old(queue) - {log[|old(log)|]}
    {
      ghost var waiting := queue;
      PendingIsUnique(all, log, queue);
      var m := Pop();
      ExecuteExtends(all, log, seen, waiting, m);
      log, seen := log + [m], seen + [|all|];
    }

    /** Take everything the channel holds. */
    method Drain(batch: seq<Command>)
      requires Valid() && |all| + |batch| < U64_RANGE
      modifies this
      ensures Valid() && all == old(all) + batch && log == old(log) && seen == old(seen)
    {
      for i := 0 to |batch|
        invariant Valid() && all == old(all) + batch[..i] && log == old(log) && seen == old(seen)
      {
        Push(batch[i]);
        assert batch[..i + 1] == batch[..i] + [batch[i]];
      }
      assert batch[..|batch|] == batch;
    }
  }

  // ---- what the channel delivers when ----

  /** How many commands the first `k` turns take from the channel. */
  function Arrived(turns: seq<seq<Command>>, k: nat): nat
    requires k <= |turns|
  {
    |Received(turns[..k])|
  }

  /** The turn after which the next command runs: the first after `from` that leaves something to do, or the last. */
  function NextTurn(turns: seq<seq<Command>>, from: nat, done: nat): (k: nat)
    requires from <= |turns|
    ensures from <= k <= |turns|
    decreases |turns| - from
  {
    if from == |turns| then from
    else if Arrived(turns, from + 1) > done then from + 1
    else NextTurn(turns, from + 1, done)
  }

  /** It is the least such turn: every turn skipped found nothing to do. */
  lemma {:induction false} NextTurnIsLeast(turns: seq<seq<Command>>, from: nat, done: nat)
    requires from < |turns|
    ensures var k := NextTurn(turns, from, done);
            && from < k
            && (forall j :: from < j < k ==> Arrived(turns, j) <= done)
            && (Arrived(turns, k) > done || (k == |turns| && Arrived(turns, k) <= done))
    decreases |turns| - from
  {
    if Arrived(turns, from + 1) <= done && from + 1 < |turns| {
      NextTurnIsLeast(turns, from + 1, done);
    }
  }

  predicate FollowsAt(turns: seq<seq<Command>>, taken: seq<nat>, i: nat)
    requires i < |taken|
  {
    var from := if i == 0 then 0 else taken[i - 1];
    from <= |turns| && taken[i] == NextTurn(turns, from, i)
  }

  /** `taken[i]` is how many turns had been taken when the i-th command ran: one per command, idle ones skipped. */
  ghost predicate FollowsTurns(turns: seq<seq<Command>>, taken: seq<nat>) {
    forall i :: 0 <= i < |taken| ==> FollowsAt(turns, taken, i)
  }

  /** How many commands had arrived when the i-th ran. */
  function SeenBy(turns: seq<seq<Command>>, taken: seq<nat>): (seen: seq<nat>)
    requires forall i :: 0 <= i < |taken| ==> taken[i] <= |turns|
    ensures |seen| == |taken| && forall i :: 0 <= i < |taken| ==> seen[i] == Arrived(turns, taken[i])
  {
    seq(|taken|, i requires 0 <= i < |taken| => Arrived(turns, taken[i]))
  }

  /** A full execution of what the channel delivers: every command exactly once, in an order the turns allow. */
  ghost predicate IsExecution(turns: seq<seq<Command>>, log: seq<Queued>, taken: seq<nat>) {
    && |log| == |Received(turns)|
    && (forall i :: 0 <= i < |taken| ==> taken[i] <= |turns|)
    && FollowsTurns(turns, taken)
    && IsSchedule(Received(turns), log, SeenBy(turns, taken))
    && (forall n :: 0 <= n < |Received(turns)| ==> InLog(log, n))
  }

  /** Where the loop stands: so many turns taken, and going on from there leads to the right next turn. */
  ghost predicate Tracks(turns: seq<seq<Command>>, turn: nat, taken: seq<nat>, seen: seq<nat>) {
    && turn <= |turns|
    && (forall i :: 0 <= i < |taken| ==> taken[i] <= |turns|)
    && FollowsTurns(turns, taken)
    && seen == SeenBy(turns, taken)
    && NextTurn(turns, if taken == [] then 0 else taken[|taken| - 1], |taken|) == NextTurn(turns, turn, |taken|)
  }

  /** A turn that leaves nothing to do is skipped. */
  lemma TracksIdle(turns: seq<seq<Command>>, turn: nat, taken: seq<nat>, seen: seq<nat>)
    requires Tracks(turns, turn, taken, seen) && turn < |turns| && Arrived(turns, turn + 1) <= |taken|
    ensures Tracks(turns, turn + 1, taken, seen)
  {
  }

  /** One more command runs, after the next turn or after the last one. */
  lemma TracksRun(turns: seq<seq<Command>>, turn: nat, taken: seq<nat>, seen: seq<nat>, now: nat)
    requires Tracks(turns, turn, taken, seen)
    requires if turn < |turns| then now == turn + 1 && Arrived(turns, now) > |taken| else now == turn
    ensures Tracks(turns, now, taken + [now], seen + [Arrived(turns, now)])
  {
    var more := taken + [now];
    forall i | 0 <= i < |more|
      ensures more[i] <= |turns| && FollowsAt(turns, more, i)
    {
      assert i < |taken| ==> FollowsAt(turns, taken, i);
    }
    assert SeenBy(turns, more) == seen + [Arrived(turns, now)];
  }

  /**
   The actor loop. `turns[k]` is what turn k takes from the channel; after the last turn the channel is closed
   and the queue is drained.
   */
  method RunDbActor(turns: seq<seq<Command>>) returns (log: seq<Queued>)
    requires |Received(turns)| < U64_RANGE
    ensures exists taken :: IsExecution(turns, log, taken)
  {
    var actor := new Actor();
    var turn := 0;
    ghost var taken: seq<nat> := [];
    assert turns[..0] == [];
    while actor.queue != {} || turn < |turns|
      invariant 0 <= turn <= |turns| && fresh(actor)
      invariant actor.Valid() && actor.all == Received(turns[..turn])
      invariant |taken| == |actor.log| && Tracks(turns, turn, taken, actor.seen)
      decreases |turns| - turn, |actor.queue|
    {
      ghost var before := turn;
      if turn < |turns| {
        ReceivedMore(turns, turn);
        ReceivedIsMonotone(turns, turn + 1);
        actor.Drain(turns[turn]);
        turn := turn + 1;
      }
      QueueIsTheDifference(actor.all, actor.log, actor.seen, actor.queue);
      if actor.queue == {} {
        TracksIdle(turns, before, taken, actor.seen);
        continue;
      }
      TracksRun(turns, before, taken, actor.seen, turn);
      taken := taken + [turn];
      actor.ExecuteNext();
    }
    log := actor.log;
    ExecutionIsFull(turns, log, taken, actor.seen);
  }

  /** When everything received has run, the log is a full execution. */
  lemma ExecutionIsFull(turns: seq<seq<Command>>, log: seq<Queued>, taken: seq<nat>, seen: seq<nat>)
    requires Tracks(turns, |turns|, taken, seen) && |taken| == |log|
    requires Consistent(Received(turns[..|turns|]), log, seen, {})
    ensures IsExecution(turns, log, taken)
  {
    assert turns[..|turns|] == turns;
    assert forall n :: 0 <= n < |Received(turns)| ==> InLog(log, n);
    AllOnceMeansSameLength(log, |Received(turns)|);
  }

  /** Something waits exactly when more was received than was executed. */
  lemma QueueIsTheDifference(all: seq<Command>, log: seq<Queued>, seen: seq<nat>, queue: set<Queued>)
    requires Consistent(all, log, seen, queue)
    ensures |log| <= |all|
    ensures queue != {} <==> |all| > |log|
  {
    LogFits(log, |all|);
    if queue == {} {
      assert forall n :: 0 <= n < |all| ==> InLog(log, n);
      AllOnceMeansSameLength(log, |all|);
    } else if |log| == |all| {
      var q :| q in queue;
      LogWithGap(log, |all|, q.sequence);
    }
  }

  /** Distinct numbers below `n` are at most `n` many. */
  lemma LogFits(log: seq<Queued>, n: nat)
    requires forall i, j :: 0 <= i < j < |log| ==> log[i].sequence != log[j].sequence
    requires forall i :: 0 <= i < |log| ==> log[i].sequence < n
    ensures |log| <= n
  {
    CountBelow(n);
    CountLog(log);
    SubsetIsSmaller(set i | 0 <= i < |log| :: log[i].sequence, Below(n));
  }

  lemma LogWithGap(log: seq<Queued>, n: nat, gap: nat)
    requires forall i, j :: 0 <= i < j < |log| ==> log[i].sequence != log[j].sequence
    requires forall i :: 0 <= i < |log| ==> log[i].sequence < n
    requires gap < n && !InLog(log, gap)
    ensures |log| < n
  {
    CountBelow(n);
    CountLog(log);
    SubsetIsSmaller(set i | 0 <= i < |log| :: log[i].sequence, Below(n) - {gap});
  }

  lemma {:induction false} ReceivedIsMonotone(turns: seq<seq<Command>>, i: nat)
    requires i <= |turns|
    ensures |Received(turns[..i])| <= |Received(turns)|
    decreases |turns| - i
  {
    if i == |turns| {
      assert turns[..i] == turns;
    } else {
      ReceivedMore(turns, i);
      ReceivedIsMonotone(turns, i + 1);
    }
  }

  /** Distinct numbers below `n` that cover all of them are exactly `n` many. */
  lemma AllOnceMeansSameLength(log: seq<Queued>, n: nat)
    requires forall i, j :: 0 <= i < j < |log| ==> log[i].sequence != log[j].sequence
    requires forall i :: 0 <= i < |log| ==> log[i].sequence < n
    requires forall k :: 0 <= k < n ==> InLog(log, k)
    ensures |log| == n
  {
    CountBelow(n);
    CountLog(log);
    assert forall k :: k in Below(n) ==> InLog(log, k);
    assert (set i | 0 <= i < |log| :: log[i].sequence) == Below(n);
  }

  function Below(n: nat): set<nat> {
    if n == 0 then {} else Below(n - 1) + {n - 1}
  }

  lemma {:induction false} CountBelow(n: nat)
    ensures |Below(n)| == n && forall k: nat :: k in Below(n) <==> k < n
    decreases n
  {
    if n > 0 {
      CountBelow(n - 1);
    }
  }

  lemma {:induction false} CountLog(log: seq<Queued>)
    requires forall i, j :: 0 <= i < j < |log| ==> log[i].sequence != log[j].sequence
    ensures |set i | 0 <= i < |log| :: log[i].sequence| == |log|
    decreases |log|
  {
    if log != [] {
      var init, x := log[..|log| - 1], log[|log| - 1];
      CountLog(init);
      var before := set i | 0 <= i < |init| :: init[i].sequence;
      assert (set i | 0 <= i < |log| :: log[i].sequence) == before + {x.sequence};
    }
  }

  // ---- what a schedule guarantees ----

  /** Equally urgent commands run in arrival order. */
  lemma EqualPriorityIsFifo(all: seq<Command>, log: seq<Queued>, seen: seq<nat>, i: nat, j: nat)
    requires IsSchedule(all, log, seen) && i < j < |log|
    requires log[i].command.priority == log[j].command.priority
    ensures log[i].sequence < log[j].sequence
  {
    assert log[j].sequence < seen[i] ==> Beats(log[i], log[j]);
  }

  /** A command that runs before a more urgent one does so because the other came out of the channel in a later turn. */
  lemma UrgentRunsFirst(turns: seq<seq<Command>>, log: seq<Queued>, taken: seq<nat>, i: nat, j: nat)
    requires IsExecution(turns, log, taken) && i < j < |log|
    requires log[i].command.priority < log[j].command.priority
    ensures i < |taken| && taken[i] <= |turns| && Arrived(turns, taken[i]) <= log[j].sequence
  {
    var seen := SeenBy(turns, taken);
    assert log[j].sequence < seen[i] ==> Beats(log[i], log[j]);
  }

  /** The turns leave no choice about when commands run. */
  lemma {:induction false} TakenIsUnique(turns: seq<seq<Command>>, a: seq<nat>, b: seq<nat>, i: nat)
    requires FollowsTurns(turns, a) && FollowsTurns(turns, b) && i < |a| && i < |b|
    ensures a[i] == b[i]
    decreases i
  {
    assert FollowsAt(turns, a, i) && FollowsAt(turns, b, i);
    if i > 0 {
      TakenIsUnique(turns, a, b, i - 1);
    }
  }

  /** Nor about which: the channel's turns determine the whole log. */
  lemma ExecutionIsUnique(turns: seq<seq<Command>>, a: seq<Queued>, b: seq<Queued>, ta: seq<nat>, tb: seq<nat>)
    requires IsExecution(turns, a, ta) && IsExecution(turns, b, tb)
    ensures a == b && ta == tb
  {
    forall i | 0 <= i < |ta|
      ensures ta[i] == tb[i]
    {
      TakenIsUnique(turns, ta, tb, i);
    }
    assert ta == tb;
    forall i | 0 <= i < |a|
      ensures a[i] == b[i]
    {
      SameCommandRuns(Received(turns), a, b, SeenBy(turns, ta), i);
    }
  }

  lemma {:induction false} SameCommandRuns(all: seq<Command>, a: seq<Queued>, b: seq<Queued>, seen: seq<nat>, i: nat)
    requires IsSchedule(all, a, seen) && IsSchedule(all, b, seen) && i < |a|
    requires forall n :: 0 <= n < |all| ==> InLog(a, n) && InLog(b, n)
    ensures a[i] == b[i]
    decreases i
  {
    forall k | 0 <= k < i
      ensures a[k] == b[k]
    {
      SameCommandRuns(all, a, b, seen, k);
    }
    var p := RunsLater(all, a, b, seen, i);
    var q := RunsLater(all, b, a, seen, i);
    assert p > i ==> Beats(a[i], a[p]);
    assert q > i ==> Beats(b[i], b[q]);
  }

  /** The i-th command of one log runs in the other no earlier than i-th. */
  lemma RunsLater(all: seq<Command>, a: seq<Queued>, b: seq<Queued>, seen: seq<nat>, i: nat) returns (p: nat)
    requires IsSchedule(all, a, seen) && IsSchedule(all, b, seen) && i < |a|
    requires (forall n :: 0 <= n < |all| ==> InLog(a, n)) && forall k :: 0 <= k < i ==> a[k] == b[k]
    ensures i <= p < |a| && a[p] == b[i]
  {
    assert Faithful(all, b[i]) && InLog(a, b[i].sequence);
    assert forall k :: 0 <= k < i ==> a[k].sequence != b[i].sequence;
    p :| 0 <= p < |a| && a[p].sequence == b[i].sequence;
    assert Faithful(all, a[p]);
  }
}
