/**
 Moving one photo to the trash while the file system watcher runs: the row is marked first, the file is moved
 second, and a failed move unmarks the row. A watcher deletion looks at the file system first and runs its
 transaction later, so any steps of the move may come in between.
 */
module MarkBeforeMove {

  /** `Hidden` is a row kept out of the library until its cloud copy is deleted. */
  datatype Row = Live | Trashed | Hidden | Deleted

  datatype Place = Original | TrashWithoutInfo | TrashWithInfo

  datatype Pc = Start | Marked | Renamed | InfoFailed | MoveFailed | Moved | Done

  /** Which steps of this move succeed. The system backend moves file and info in one step: `info` holds. */
  datatype Outcome = Outcome(mark: bool, rename: bool, info: bool, back: bool, unmark: bool)

  /**
   `evidence` are the watcher deletions between observation and transaction; each says whether a trash entry
   was seen.
   */
  datatype State = State(row: Row, file: Place, pc: Pc, evidence: multiset<bool>)

  datatype Step = Move | Observe | Transact(inTrash: bool, keptForUplink: bool)

  const INITIAL := State(Live, Original, Start, multiset{})

  predicate Enabled(s: State, t: Step) {
    match t
    case Move => s.pc != Done
    case Observe => s.file != Original  // the path is gone; its parent directory exists
    case Transact(e, _) => e in s.evidence
  }

  /** The next step of the thread that moves the photo. */
  function MoveStep(o: Outcome, s: State): State {
    match s.pc
    case Start => if o.mark then s.(row := if s.row == Live then Trashed else s.row, pc := Marked) else s.(pc := Done)
    case Marked => if o.rename then s.(file := TrashWithoutInfo, pc := Renamed) else s.(pc := MoveFailed)
    case Renamed => if o.info then s.(file := TrashWithInfo, pc := Moved) else s.(pc := InfoFailed)
    case InfoFailed => s.(file := if o.back then Original else s.file, pc := MoveFailed)
    case MoveFailed =>
      s.(row := if o.unmark && s.row == Trashed then Live else s.row, pc := Done)
    case Moved => s.(pc := Done)
    case Done => s
  }

  /** The transaction of a watcher deletion touches live rows only. */
  function TransactStep(s: State, inTrash: bool, keptForUplink: bool): State {
    var s' := s.(evidence := s.evidence - multiset{inTrash});
    if s.row != Live then s'
    else s'.(row := if inTrash then Trashed else if keptForUplink then Hidden else Deleted)
  }

  function Apply(o: Outcome, s: State, t: Step): State {
    match t
    case Move => MoveStep(o, s)
    case Observe => s.(evidence := s.evidence + multiset{s.file == TrashWithInfo})
    case Transact(e, kept) => TransactStep(s, e, kept)
  }

  predicate IsRun(o: Outcome, states: seq<State>, steps: seq<Step>) {
    IsRunFrom(o, INITIAL, states, steps)
  }

  predicate IsRunFrom(o: Outcome, first: State, states: seq<State>, steps: seq<Step>) {
    && |states| == |steps| + 1 && states[0] == first
    && forall i :: 0 <= i < |steps| ==> Enabled(states[i], steps[i]) && states[i + 1] == Apply(o, states[i], steps[i])
  }

  predicate Lost(s: State) {
    s.row == Deleted || s.row == Hidden
  }

  /** The file left its place, the move failed all the same, and the row was made live again. */
  predicate Exposed(o: Outcome) {
    o.mark && o.rename && !o.info && o.unmark
  }

  /** How far the move got determines row and file, whatever the watcher did. */
  predicate Inv(o: Outcome, s: State) {
    match s.pc
    case Start => s == INITIAL
    case Marked => o.mark && s.row == Trashed && s.file == Original && s.evidence == multiset{}
    case Renamed => o.mark && o.rename && s.row == Trashed && s.file == TrashWithoutInfo
    case InfoFailed => o.mark && o.rename && !o.info && s.row == Trashed && s.file == TrashWithoutInfo
    case MoveFailed =>
      && o.mark && s.row == Trashed
      && (if o.rename then !o.info && s.file == (if o.back then Original else TrashWithoutInfo)
          else s.file == Original && s.evidence == multiset{})
    case Moved => o.mark && o.rename && o.info && s.row == Trashed && s.file == TrashWithInfo
    case Done =>
      if !o.mark then s.row == Live && s.file == Original && s.evidence == multiset{}
      else if !o.rename
      then s.file == Original && s.evidence == multiset{} && s.row == (if o.unmark then Live else Trashed)
      else if o.info then s.row == Trashed && s.file == TrashWithInfo
      else s.file == (if o.back then Original else TrashWithoutInfo) && (!o.unmark ==> s.row == Trashed)
  }

  lemma StepKeepsInv(o: Outcome, s: State, t: Step)
    requires Inv(o, s) && Enabled(s, t)
    ensures Inv(o, Apply(o, s, t))
  {
  }

  lemma {:induction false} RunKeepsInv(o: Outcome, states: seq<State>, steps: seq<Step>, i: nat)
    requires IsRun(o, states, steps) && i < |states|
    ensures Inv(o, states[i])
    decreases i
  {
    if i > 0 {
      RunKeepsInv(o, states, steps, i - 1);
      StepKeepsInv(o, states[i - 1], steps[i - 1]);
    }
  }

  /** Some interleaving removes the row from the library. */
  ghost predicate CanBeLost(o: Outcome) {
    exists states, steps, i :: IsRun(o, states, steps) && 0 <= i < |states| && Lost(states[i])
  }

  /**
   In every interleaving with any number of watcher deletions the row stays in the library, exactly unless the
   file was renamed away and the move then failed on its info file and was rolled back.
   */
  lemma RowCanBeLostIffExposed(o: Outcome)
    ensures CanBeLost(o) <==> Exposed(o)
  {
    if Exposed(o) {
      LostRun(o);
    }
    forall states, steps, i | IsRun(o, states, steps) && 0 <= i < |states| && !Exposed(o)
      ensures !Lost(states[i])
    {
      RunKeepsInv(o, states, steps, i);
    }
  }

  /** The watcher looks while the file is away, and acts after the rollback. */
  lemma LostRun(o: Outcome)
    requires Exposed(o)
    ensures CanBeLost(o)
  {
    var steps := [Move, Move, Observe, Move, Move, Move, Transact(false, false)];
    var s1 := Apply(o, INITIAL, Move);
    var s2 := Apply(o, s1, Move);
    var s3 := Apply(o, s2, Observe);
    var s4 := Apply(o, s3, Move);
    var s5 := Apply(o, s4, Move);
    var s6 := Apply(o, s5, Move);
    var s7 := Apply(o, s6, Transact(false, false));
    var states := [INITIAL, s1, s2, s3, s4, s5, s6, s7];
    assert s6.evidence == multiset{false} && s7.row == Deleted;
    forall i | 0 <= i < |steps|
      ensures Enabled(states[i], steps[i]) && states[i + 1] == Apply(o, states[i], steps[i])
    {
      assert i == 0 || i == 1 || i == 2 || i == 3 || i == 4 || i == 5 || i == 6;
    }
    assert IsRun(o, states, steps) && Lost(states[7]);
  }

  /** At the end a row that was not exposed is trashed exactly when the file moved or unmarking failed. */
  lemma EndIsConsistent(o: Outcome, states: seq<State>, steps: seq<Step>)
    requires IsRun(o, states, steps) && states[|states| - 1].pc == Done && !Exposed(o)
    ensures var end := states[|states| - 1];
            && !Lost(end)
            && (end.file == TrashWithInfo ==> end.row == Trashed)
            && (end.row == Trashed <==> end.file == TrashWithInfo || (o.mark && !o.unmark))
            && (end.row == Live ==> end.file == Original)
  {
    RunKeepsInv(o, states, steps, |states| - 1);
  }

  // ---- files that leave the library without the application ----

  /** No step of a run is a move of the application. */
  predicate WatcherOnly(steps: seq<Step>) {
    forall i :: 0 <= i < |steps| ==> !steps[i].Move?
  }

  predicate HasTransaction(steps: seq<Step>) {
    exists i :: 0 <= i < |steps| && steps[i].Transact?
  }

  /** Another program put the file into the trash: the first watcher deletion marks the row, and none loses it. */
  lemma {:induction false} TrashedElsewhereIsMarked(o: Outcome, states: seq<State>, steps: seq<Step>, n: nat)
    requires IsRunFrom(o, State(Live, TrashWithInfo, Done, multiset{}), states, steps)
    requires WatcherOnly(steps) && n < |states|
    ensures states[n].row == (if HasTransaction(steps[..n]) then Trashed else Live)
    ensures states[n].file == TrashWithInfo && false !in states[n].evidence
    decreases n
  {
    if n > 0 {
      TrashedElsewhereIsMarked(o, states, steps, n - 1);
      TransactionsGrow(steps, n - 1);
    }
  }

  /** The file was deleted: the first watcher deletion takes the row out, hidden exactly if a cloud copy is left. */
  lemma {:induction false} DeletedElsewhereIsDropped(
    o: Outcome, states: seq<State>, steps: seq<Step>, f: nat, n: nat)
    requires IsRunFrom(o, State(Live, TrashWithoutInfo, Done, multiset{}), states, steps)
    requires WatcherOnly(steps) && n < |states|
    requires f < |steps| && steps[f].Transact? && !HasTransaction(steps[..f])
    ensures states[n].row == if n <= f then Live else if steps[f].keptForUplink then Hidden else Deleted
    ensures states[n].file == TrashWithoutInfo && true !in states[n].evidence
    decreases n
  {
    if n > 0 {
      DeletedElsewhereIsDropped(o, states, steps, f, n - 1);
      GoneStep(o, states[n - 1], steps[n - 1]);
      assert n <= f ==> steps[..f][n - 1] == steps[n - 1];
    }
  }

  lemma GoneStep(o: Outcome, s: State, t: Step)
    requires s.file == TrashWithoutInfo && true !in s.evidence && Enabled(s, t) && !t.Move?
    ensures var s' := Apply(o, s, t);
            && s'.file == TrashWithoutInfo && true !in s'.evidence
            && s'.row == if s.row == Live && t.Transact? then (if t.keptForUplink then Hidden else Deleted) else s.row
  {
  }

  lemma TransactionsGrow(steps: seq<Step>, n: nat)
    requires n < |steps|
    ensures HasTransaction(steps[..n + 1]) <==> HasTransaction(steps[..n]) || steps[n].Transact?
  {
    var before, after := steps[..n], steps[..n + 1];
    if i :| 0 <= i < |before| && before[i].Transact? {
      assert after[i] == before[i];
    }
    if i :| 0 <= i < |after| && after[i].Transact? {
      assert i < n ==> before[i] == after[i];
    }
    assert after[n] == steps[n];
  }
}
