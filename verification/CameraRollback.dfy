/**
 The loop of `rollbackToInitializedState` on the adapter's value, with auto-focus
 threads finishing at any moment the state lock is free.
 */
module CameraRollback {
  import opened Wrappers
  import opened AdapterStates
  import opened CameraAdapterModel

  /** What happens around one turn of the loop: how many auto-focus threads finish before the
      state is read, before the command is sent, and after it; and the hook's result. */
  datatype Turn = Turn(before: nat, between: nat, after: nat, hook: Status)

  function FinishAutoFocusTimes(a: Adapter, n: nat): Adapter {
    a.(state := AutoFocusSteps(a.state, n))
  }

  lemma {:induction false} FinishAutoFocusTimesKeepsValid(a: Adapter, n: nat)
    requires a.Valid()
    ensures FinishAutoFocusTimes(a, n).Valid()
  {
    AutoFocusStepsCollapse(a.state, n);
    FinishAutoFocusKeepsValid(a);
  }

  /** `rollbackToPreviousState`, preceded and interrupted by auto-focus threads. */
  function PreviousState(a: Adapter, turn: Turn): (Adapter, Status)
    requires a.Valid()
  {
    FinishAutoFocusTimesKeepsValid(a, turn.before);
    var seen := FinishAutoFocusTimes(a, turn.before);
    if seen.state.Initialized? then (seen, NoError)
    else
      match RollbackCommand(seen.state)
      case None => (seen, InvalidOperation)
      case Some(op) =>
        FinishAutoFocusTimesKeepsValid(seen, turn.between);
        Execute(FinishAutoFocusTimes(seen, turn.between), op, Arguments(None, false, turn.hook))
  }

  /** One whole turn of the loop. */
  function Turned(a: Adapter, turn: Turn): (result: (Adapter, Status))
    requires a.Valid() && !a.state.Initialized?
    ensures var (end, status) := result;
            && end.Valid()
            && (status.NoError? ==> Rank(end.state) < Rank(a.state))
            && (!status.NoError? ==> !end.state.Initialized?)
  {
    TurnLowersRankOrFails(a, turn);
    var (r, status) := PreviousState(a, turn);
    (FinishAutoFocusTimes(r, turn.after), status)
  }

  /** A turn that reports success has lowered the rank of the state; one that fails has not
      reached the initial state. */
  lemma TurnLowersRankOrFails(a: Adapter, turn: Turn)
    requires a.Valid() && !a.state.Initialized?
    ensures var (r, status) := PreviousState(a, turn);
            var end := FinishAutoFocusTimes(r, turn.after);
            && r.Valid() && end.Valid()
            && (status.NoError? ==> Rank(end.state) < Rank(a.state))
            && (!status.NoError? ==> !end.state.Initialized? && Rank(end.state) <= Rank(a.state))
  {
    var (r, status) := PreviousState(a, turn);
    FinishAutoFocusTimesKeepsValid(a, turn.before);
    AutoFocusNeverRaisesRank(a.state, turn.before);
    var seen := FinishAutoFocusTimes(a, turn.before);
    if RollbackCommand(seen.state).Some? {
      var op := RollbackCommand(seen.state).value;
      FinishAutoFocusTimesKeepsValid(seen, turn.between);
      AutoFocusNeverRaisesRank(seen.state, turn.between);
      var sentIn := FinishAutoFocusTimes(seen, turn.between);
      RollbackCommandGoesThroughTheTable(sentIn, seen.state, turn.hook);
      AcceptedRollbackCommandLowersRank(a.state, turn.before, turn.between, turn.after);
    }
    FinishAutoFocusTimesKeepsValid(r, turn.after);
    AutoFocusNeverRaisesRank(r.state, turn.after);
  }

  lemma RollbackCommandGoesThroughTheTable(a: Adapter, seen: AdapterState, hook: Status)
    requires a.Valid() && RollbackCommand(seen).Some?
    ensures var op := RollbackCommand(seen).value;
            var (r, status) := Execute(a, op, Arguments(None, false, hook));
            && r.Valid()
            && (status.NoError? ==> Transition(a.state, op) == Some(r.state))
            && (!status.NoError? ==> r.state == a.state)
  {
    var op := RollbackCommand(seen).value;
    CommandKeepsValid(a, op, Arguments(None, false, hook));
    CommandMovesByTheTable(a, op, Arguments(None, false, hook));
  }

  /** Nobody interferes and every hook succeeds. */
  ghost predicate Undisturbed(turns: nat -> Turn) {
    forall i :: turns(i) == Turn(0, 0, 0, NoError)
  }

  /**
   The whole loop from turn `i` on: the adapter at the end, the status, and how many
   turns were taken by then. However the auto-focus threads interleave and whatever the
   hooks return, it ends within `Rank` turns, and it reports success exactly if it ended in
   the initial state.
   */
  ghost function RollbackLoop(a: Adapter, turns: nat -> Turn, i: nat): (result: (Adapter, Status, nat))
    requires a.Valid()
    ensures var (end, status, n) := result;
            end.Valid() && i <= n <= i + Rank(a.state) && (status.NoError? <==> end.state.Initialized?)
    ensures Undisturbed(turns) ==>
              var (end, status, n) := result;
              if Loaded(a.state) then end == a && status == InvalidOperation
              else end.state == Initialized && status == NoError && n == i + Rank(a.state) <= i + 3
    decreases Rank(a.state)
  {
    if a.state.Initialized? then (a, NoError, i)
    else
      var (end, status) := Turned(a, turns(i));
      if status.NoError? then
        assert Undisturbed(turns) ==> Rank(end.state) == Rank(a.state) - 1 && !Loaded(end.state) && !Loaded(a.state) by {
          if Undisturbed(turns) { UndisturbedTurn(a); }
        }
        RollbackLoop(end, turns, i + 1)
      else
        assert Undisturbed(turns) ==> Loaded(a.state) && end == a && status == InvalidOperation by {
          if Undisturbed(turns) { UndisturbedTurn(a); }
        }
        (end, status, i + 1)
  }

  /** With a succeeding hook a rollback command succeeds and follows the table. */
  lemma RollbackCommandSucceeds(a: Adapter)
    requires a.Valid() && RollbackCommand(a.state).Some?
    ensures var op := RollbackCommand(a.state).value;
            var (r, status) := Execute(a, op, Arguments(None, false, NoError));
            status == NoError && Some(r.state) == Transition(a.state, op)
  {
    var op := RollbackCommand(a.state).value;
    if op.StopVideo? {
      AcceptedVideoCommandSucceeds(a, op, Arguments(None, false, NoError));
    }
    CommandMovesByTheTable(a, op, Arguments(None, false, NoError));
  }

  /** An undisturbed turn takes the state down exactly one rank; in a Loaded state it fails at
      once and changes nothing. */
  lemma UndisturbedTurn(a: Adapter)
    requires a.Valid() && !a.state.Initialized?
    ensures var (end, status) := Turned(a, Turn(0, 0, 0, NoError));
            if Loaded(a.state) then end == a && status == InvalidOperation
            else status == NoError && Rank(end.state) == Rank(a.state) - 1 && !Loaded(end.state)
  {
    if RollbackCommand(a.state).Some? {
      RollbackCommandFollowsTheChain(a.state);
      RollbackCommandSucceeds(a);
    }
  }

  /** A rollback command takes the state exactly one rank down, never into a Loaded state. */
  lemma RollbackCommandFollowsTheChain(state: AdapterState)
    requires RollbackCommand(state).Some?
    ensures var next := Transition(state, RollbackCommand(state).value).value;
            Rank(next) == Rank(state) - 1 && !Loaded(next)
  {
  }
}
