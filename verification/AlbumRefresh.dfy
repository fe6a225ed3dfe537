/**
 Coalescing album refreshes: at most one refresh runs, a mark during a run is remembered, and the rerun waits
 for a cooldown timer. Completion and timer callbacks are steps of the main loop.
 */
module AlbumRefresh {

  /**
   The three cells, the outstanding work (`jobs` running in the background, `timers` armed), and how many refreshes
   were started.
   */
  datatype State = State(running: bool, pending: bool, cooldown: bool, jobs: nat, timers: nat, started: nat)

  const IDLE := State(false, false, false, 0, 0, 0)

  /** A refresh ends well or not; after success the callback may mark the albums dirty again at once. */
  datatype Step = Mark | Complete(ok: bool, callbackMarks: bool) | Timer

  predicate Enabled(s: State, t: Step) {
    match t
    case Mark => true
    case Complete(_, _) => s.jobs > 0
    case Timer => s.timers > 0
  }

  function MarkStep(s: State): State {
    if s.running || s.cooldown then s.(pending := true)
    else s.(running := true, jobs := s.jobs + 1, started := s.started + 1)
  }

  function CompleteStep(s: State, ok: bool, callbackMarks: bool): State
    requires s.jobs > 0
  {
    var s1 := if ok && callbackMarks then MarkStep(s) else s;
    var s2 := s1.(running := false, jobs := s1.jobs - 1);
    if s2.pending then s2.(pending := false, cooldown := true, timers := s2.timers + 1) else s2
  }

  function TimerStep(s: State): State
    requires s.timers > 0
  {
    MarkStep(s.(timers := s.timers - 1, cooldown := false, pending := false))
  }

  function Apply(s: State, t: Step): State
    requires Enabled(s, t)
  {
    match t
    case Mark => MarkStep(s)
    case Complete(ok, marks) => CompleteStep(s, ok, marks)
    case Timer => TimerStep(s)
  }

  /** Running and cooling exclude each other, with one job and one timer at most, and only then a rerun is pending. */
  predicate Inv(s: State) {
    && s.jobs == (if s.running then 1 else 0)
    && s.timers == (if s.cooldown then 1 else 0)
    && !(s.running && s.cooldown)
    && (s.pending ==> s.running || s.cooldown)
  }

  /** How many completions and timers are left until the machine is idle, if nothing is marked. */
  function StepsToIdle(s: State): nat {
    if s.running then (if s.pending then 3 else 1) else if s.cooldown then 2 else 0
  }

  /** The albums are marked dirty, from outside or by the callback of a refresh that ended well. */
  predicate Marks(t: Step) {
    t.Mark? || (t.Complete? && t.ok && t.callbackMarks)
  }

  /** A rerun is certain. */
  predicate RerunDue(s: State) {
    (s.running && s.pending) || s.cooldown
  }

  /** How many completions and timers are left until the next start, while a rerun is due. */
  function StepsToStart(s: State): nat {
    if s.running then 2 else 1
  }

  predicate IsRun(states: seq<State>, steps: seq<Step>) {
    && |states| == |steps| + 1
    && forall i :: 0 <= i < |steps| ==> Enabled(states[i], steps[i]) && states[i + 1] == Apply(states[i], steps[i])
  }

  lemma StepKeepsInv(s: State, t: Step)
    requires Inv(s) && Enabled(s, t)
    ensures Inv(Apply(s, t))
  {
  }

  lemma {:induction false} RunKeepsInv(states: seq<State>, steps: seq<Step>, i: nat)
    requires IsRun(states, steps) && Inv(states[0]) && i < |states|
    ensures Inv(states[i])
    decreases i
  {
    if i > 0 {
      RunKeepsInv(states, steps, i - 1);
      StepKeepsInv(states[i - 1], steps[i - 1]);
    }
  }

  /** Steps other than marks. */
  function Wakeups(steps: seq<Step>): nat {
    if steps == [] then 0 else (if steps[0].Mark? then 0 else 1) + Wakeups(steps[1..])
  }

  /** One step towards the next start: marks never delay it. */
  lemma DueStepAdvances(s: State, t: Step)
    requires Inv(s) && RerunDue(s) && Enabled(s, t)
    ensures var s' := Apply(s, t);
            s'.started > s.started ||
            (RerunDue(s') && s'.started == s.started
             && StepsToStart(s') + (if t.Mark? then 0 else 1) <= StepsToStart(s))
  {
  }

  /** In every run a due rerun starts, or it is still due and not enough completions and timers have come. */
  lemma {:induction false} DueRerunStarts(states: seq<State>, steps: seq<Step>)
    requires IsRun(states, steps) && Inv(states[0]) && RerunDue(states[0])
    ensures (exists j :: 0 < j < |states| && states[j].started > states[0].started)
            || (RerunDue(states[|steps|]) && Wakeups(steps) < StepsToStart(states[0]))
    decreases |steps|
  {
    if steps != [] {
      var s1 := states[1];
      DueStepAdvances(states[0], steps[0]);
      if s1.started > states[0].started {
        assert states[1].started > states[0].started;
      } else {
        StepKeepsInv(states[0], steps[0]);
        DueRerunStarts(states[1..], steps[1..]);
        if j :| 0 < j < |states[1..]| && states[1..][j].started > s1.started {
          assert states[j + 1].started > states[0].started;
        } else {
          assert states[1..][|steps[1..]|] == states[|steps|];
        }
      }
    }
  }

  /** A mark starts a refresh at once or makes a rerun due. */
  lemma MarkIsCovered(s: State, t: Step)
    requires Inv(s) && Enabled(s, t) && Marks(t)
    ensures var s' := Apply(s, t);
            if t.Mark? && !s.running && !s.cooldown then s'.started == s.started + 1
            else s'.started == s.started && RerunDue(s')
  {
  }

  /** The run from its `i`-th state on. */
  lemma SuffixIsRun(states: seq<State>, steps: seq<Step>, i: nat)
    requires IsRun(states, steps) && i <= |steps|
    ensures IsRun(states[i..], steps[i..])
  {
  }

  /**
   No update is lost. In every run every mark, whenever it comes, is followed by the start of a refresh at the latest
   after two more completions or timers, however many marks come in between; until then the rerun stays due.
   */
  lemma EveryMarkIsRefreshed(states: seq<State>, steps: seq<Step>, i: nat)
    requires IsRun(states, steps) && Inv(states[0]) && i < |steps| && Marks(steps[i])
    ensures (exists j :: i < j < |states| && states[j].started > states[i].started)
            || (RerunDue(states[|steps|]) && Wakeups(steps[i + 1..]) < 2)
    ensures Wakeups(steps[i + 1..]) >= 2 ==> exists j :: i < j < |states| && states[j].started > states[i].started
  {
    RunKeepsInv(states, steps, i);
    RunKeepsInv(states, steps, i + 1);
    MarkIsCovered(states[i], steps[i]);
    if states[i + 1].started == states[i].started {
      SuffixIsRun(states, steps, i + 1);
      var later, more := states[i + 1..], steps[i + 1..];
      DueRerunStarts(later, more);
      assert later[|more|] == states[|steps|];
      if j :| 0 < j < |later| && later[j].started > later[0].started {
        assert states[i + 1 + j].started > states[i].started;
      }
    }
  }

  /** A refresh starts exactly with a mark while neither running nor cooling, or when the timer ends a cooldown. */
  lemma StartsIff(s: State, t: Step)
    requires Inv(s) && Enabled(s, t)
    ensures var s' := Apply(s, t);
            if t.Timer? || (t.Mark? && !s.running && !s.cooldown)
            then s'.started == s.started + 1 && s'.jobs == s.jobs + 1 && s'.running
            else s'.started == s.started && s'.jobs <= s.jobs
  {
  }

  function Completions(steps: seq<Step>): nat {
    if steps == [] then 0 else (if steps[0].Complete? then 1 else 0) + Completions(steps[1..])
  }

  /** Every start is a job of its own: the refreshes started in a run are those completed and the one still running. */
  lemma {:induction false} EveryStartIsAJob(states: seq<State>, steps: seq<Step>)
    requires IsRun(states, steps) && Inv(states[0])
    ensures states[|steps|].started + states[0].jobs ==
            states[0].started + Completions(steps) + states[|steps|].jobs
    decreases |steps|
  {
    if steps != [] {
      StepKeepsInv(states[0], steps[0]);
      StartsIff(states[0], steps[0]);
      EveryStartIsAJob(states[1..], steps[1..]);
      assert states[1..][|steps[1..]|] == states[|steps|];
    }
  }

  /** Marks are always possible, completions exactly while running, and timers exactly while cooling. */
  lemma EnabledIff(s: State, ok: bool, callbackMarks: bool)
    requires Inv(s)
    ensures Enabled(s, Mark)
    ensures Enabled(s, Complete(ok, callbackMarks)) <==> s.running
    ensures Enabled(s, Timer) <==> s.cooldown
  {
  }

  /** Without new marks every step brings the machine closer to idle, and it stops exactly when idle. */
  lemma QuietStepAdvances(s: State, t: Step)
    requires Inv(s) && Enabled(s, t) && !Marks(t)
    ensures StepsToIdle(Apply(s, t)) < StepsToIdle(s)
    ensures StepsToIdle(s) == 0 <==> !s.running && !s.cooldown && !s.pending && s.jobs == 0 && s.timers == 0
  {
  }

  /** So a quiet run has at most three steps, and what ends without an enabled step is idle with no rerun due. */
  lemma {:induction false} QuietRunIsShort(states: seq<State>, steps: seq<Step>)
    requires IsRun(states, steps) && Inv(states[0])
    requires forall i :: 0 <= i < |steps| ==> !Marks(steps[i])
    ensures |steps| + StepsToIdle(states[|steps|]) <= StepsToIdle(states[0]) <= 3
    ensures states[|steps|].jobs == 0 && states[|steps|].timers == 0 ==> !RerunDue(states[|steps|])
    decreases |steps|
  {
    RunKeepsInv(states, steps, |steps|);
    if steps != [] {
      QuietStepAdvances(states[0], steps[0]);
      StepKeepsInv(states[0], steps[0]);
      QuietRunIsShort(states[1..], steps[1..]);
      assert states[1..][|steps[1..]|] == states[|steps|];
    }
  }

  class Coordinator {
    var running: bool
    var pending: bool
    var cooldown: bool
    ghost var model: State

    ghost predicate Valid()
      reads this
    {
      Inv(model) && model.running == running && model.pending == pending && model.cooldown == cooldown
    }

    constructor ()
      ensures Valid() && model == IDLE
    {
      running, pending, cooldown, model := false, false, false, IDLE;
    }

    method MarkAlbumsDirtyAsync() returns (starts: bool)
      requires Valid()
      modifies this
      ensures Valid() && model == Apply(old(model), Mark)
      ensures starts <==> model.started == old(model).started + 1
    {
      model := Apply(model, Mark);
      if running || cooldown {
        pending := true;
        return false;
      }
      running := true;
      starts := true;
    }

    /** The end of a background refresh; the result says whether a rerun timer is armed. */
    method RefreshDone(ok: bool, callbackMarks: bool) returns (armed: bool)
      requires Valid() && model.jobs > 0
      modifies this
      ensures Valid() && model == Apply(old(model), Complete(ok, callbackMarks))
      ensures armed <==> model.timers == old(model).timers + 1
    {
      ghost var target := Apply(model, Complete(ok, callbackMarks));
      StepKeepsInv(model, Complete(ok, callbackMarks));
      if ok && callbackMarks {
        var _ := MarkAlbumsDirtyAsync();
      }
      running := false;
      armed := pending;
      pending := false;
      if armed {
        cooldown := true;
      }
      model := target;
    }

    method CooldownOver()
      requires Valid() && model.timers > 0
      modifies this
      ensures Valid() && model == Apply(old(model), Timer) && running
    {
      ghost var target := Apply(model, Timer);
      StepKeepsInv(model, Timer);
      cooldown := false;
      pending := false;
      model := model.(timers := model.timers - 1, cooldown := false, pending := false);
      var _ := MarkAlbumsDirtyAsync();
      model := target;
    }
  }
}
