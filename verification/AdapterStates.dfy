/**
 The command state machine of the camera adapter (camera/BaseCameraAdapter.cpp):
 its states, its commands, the transition table that `setState` consults, the
 step of the auto-focus thread, and the walk back to the initial state.
 */
module AdapterStates {
  import opened Wrappers

  datatype AdapterState =
    | Initialized
    | LoadedPreview
    | Preview
    | LoadedCapture
    | Capture
    | Bracketing
    | AutoFocus
    | Zoom
    | Video
    | VideoAutoFocus
    | VideoZoom
    | VideoLoadedCapture
    | VideoCapture
    | AutoFocusZoom
    | BracketingZoom

  datatype Command =
    | StartPreview
    | StopPreview
    | StartVideo
    | StopVideo
    | StartImageCapture
    | StopImageCapture
    | PerformAutofocus
    | CancelAutofocus
    | PreviewFlushBuffers
    | StartSmoothZoom
    | StopSmoothZoom
    | UseBuffersPreview
    | SetTimeout
    | CancelTimeout
    | StartBracketCapture
    | StopBracketCapture
    | QueryResolutionPreview
    | QueryBufferSizeImageCapture
    | QueryBufferSizePreviewData
    | UseBuffersImageCapture
    | UseBuffersPreviewData
    | TimeoutExpired
    | StartFd
    | StopFd
    | SwitchToExecuting
    | DisableMirror
    | FocusMoveMsg
    | Apk

  /** The table of `setState`: the next state, or None for an invalid operation. */
  function Transition(state: AdapterState, op: Command): Option<AdapterState> {
    match state
    case Initialized => (
      match op
      case UseBuffersPreview => Some(LoadedPreview)
      case QueryResolutionPreview | QueryBufferSizeImageCapture | QueryBufferSizePreviewData => Some(Initialized)
      case _ => None)
    case LoadedPreview => (
      match op
      case StartPreview => Some(Preview)
      case QueryBufferSizeImageCapture | QueryBufferSizePreviewData | UseBuffersPreviewData => Some(LoadedPreview)
      case _ => None)
    case Preview => (
      match op
      case StopPreview => Some(Initialized)
      case PerformAutofocus => Some(AutoFocus)
      case StartSmoothZoom => Some(Zoom)
      case UseBuffersImageCapture => Some(LoadedCapture)
      case StartVideo => Some(Video)
      case CancelAutofocus | QueryBufferSizeImageCapture | StopSmoothZoom => Some(Preview)
      case _ => None)
    case LoadedCapture => (
      match op
      case StartImageCapture => Some(Capture)
      case StartBracketCapture => Some(Bracketing)
      case _ => None)
    case Capture => (
      match op
      case CancelAutofocus | StopImageCapture | StopBracketCapture => Some(Preview)
      case _ => None)
    case Bracketing => (
      match op
      case StopImageCapture | StopBracketCapture => Some(Preview)
      case StartImageCapture => Some(Capture)
      case _ => None)
    case AutoFocus => (
      match op
      case QueryBufferSizeImageCapture | CancelAutofocus => Some(Preview)
      case StartSmoothZoom => Some(AutoFocusZoom)
      case _ => None)
    case Zoom => (
      match op
      case CancelAutofocus => Some(Zoom)
      case StopSmoothZoom => Some(Preview)
      case PerformAutofocus => Some(AutoFocusZoom)
      case StartVideo => Some(VideoZoom)
      case _ => None)
    case Video => (
      match op
      case StopVideo => Some(Preview)
      case PerformAutofocus => Some(VideoAutoFocus)
      case StartSmoothZoom => Some(VideoZoom)
      case UseBuffersImageCapture => Some(VideoLoadedCapture)
      case QueryBufferSizeImageCapture => Some(Video)
      case _ => None)
    case VideoAutoFocus => (
      match op
      case CancelAutofocus => Some(Video)
      case _ => None)
    case VideoLoadedCapture => (
      match op
      case StartImageCapture => Some(VideoCapture)
      case _ => None)
    case VideoCapture => (
      match op
      case StopImageCapture => Some(Video)
      case _ => None)
    case AutoFocusZoom => (
      match op
      case StopSmoothZoom => Some(AutoFocus)
      case CancelAutofocus => Some(Zoom)
      case _ => None)
    case VideoZoom => (
      match op
      case StopSmoothZoom => Some(Video)
      case StopVideo => Some(Zoom)
      case _ => None)
    case BracketingZoom => (
      match op
      case StopSmoothZoom => Some(Bracketing)
      case _ => None)
  }

  /** Where an accepted command leads; a rejected one leaves the state alone. */
  function NextOrSame(state: AdapterState, op: Command): AdapterState {
    match Transition(state, op)
    case None => state
    case Some(next) => next
  }

  /** The five states in which a recording is running. */
  predicate InVideo(state: AdapterState) {
    state.Video? || state.VideoAutoFocus? || state.VideoZoom? || state.VideoLoadedCapture? || state.VideoCapture?
  }

  /** The states between START_PREVIEW and STOP_PREVIEW. */
  predicate InSession(state: AdapterState) {
    !state.Initialized? && !state.LoadedPreview?
  }

  /** Recording starts and stops with the two video commands and with nothing else. */
  lemma VideoStatesAreEnteredAndLeftByVideoCommands(state: AdapterState, op: Command)
    requires Transition(state, op).Some?
    ensures !InVideo(state) && InVideo(Transition(state, op).value) <==> op.StartVideo?
    ensures InVideo(state) && !InVideo(Transition(state, op).value) <==> op.StopVideo?
  {
  }

  /** These states are entered and left with the two preview commands and with nothing else. */
  lemma SessionIsEnteredAndLeftByPreviewCommands(state: AdapterState, op: Command)
    requires Transition(state, op).Some?
    ensures !InSession(state) && InSession(Transition(state, op).value) <==> op.StartPreview?
    ensures InSession(state) && !InSession(Transition(state, op).value) <==> op.StopPreview?
    ensures op.UseBuffersPreview? ==> state.Initialized?
  {
  }

  // --- What is under way in a state ---

  /** The camera has preview buffers. */
  predicate HasBuffers(state: AdapterState) {
    !state.Initialized?
  }

  predicate Zooming(state: AdapterState) {
    state.Zoom? || state.VideoZoom? || state.AutoFocusZoom? || state.BracketingZoom?
  }

  predicate Focusing(state: AdapterState) {
    state.AutoFocus? || state.VideoAutoFocus? || state.AutoFocusZoom?
  }

  /** The buffers of a picture have been handed over. */
  predicate ReadyForPicture(state: AdapterState) {
    state.LoadedCapture? || state.VideoLoadedCapture?
  }

  predicate TakingPicture(state: AdapterState) {
    state.Capture? || state.VideoCapture?
  }

  predicate InBracket(state: AdapterState) {
    state.Bracketing? || state.BracketingZoom?
  }

  /** The preview runs, with or without a recording, and nothing else does. */
  predicate Resting(state: AdapterState) {
    InSession(state) && !Zooming(state) && !Focusing(state) && !ReadyForPicture(state) && !TakingPicture(state) && !InBracket(state)
  }

  /** Two states with the same things under way are the same. */
  lemma WhatIsUnderWayDeterminesState(s: AdapterState, t: AdapterState)
    requires (HasBuffers(s) <==> HasBuffers(t)) && (InSession(s) <==> InSession(t)) && (InVideo(s) <==> InVideo(t))
    requires (Zooming(s) <==> Zooming(t)) && (Focusing(s) <==> Focusing(t))
    requires (ReadyForPicture(s) <==> ReadyForPicture(t)) && (TakingPicture(s) <==> TakingPicture(t))
    requires InBracket(s) <==> InBracket(t)
    ensures s == t
  {
  }

  /** Which commands are accepted, by what is under way; a recording goes with zooming or focusing, but not with both. */
  predicate Accepts(s: AdapterState, op: Command) {
    match op
    case UseBuffersPreview | QueryResolutionPreview => !HasBuffers(s)
    case StartPreview | UseBuffersPreviewData => HasBuffers(s) && !InSession(s)
    case QueryBufferSizePreviewData => !InSession(s)
    case QueryBufferSizeImageCapture => !InSession(s) || Resting(s) || (Focusing(s) && !Zooming(s) && !InVideo(s))
    case StopPreview => Resting(s) && !InVideo(s)
    case StartVideo => !InVideo(s) && (Resting(s) || (Zooming(s) && !Focusing(s) && !InBracket(s)))
    case StopVideo => InVideo(s) && (Resting(s) || Zooming(s))
    case StartSmoothZoom => Resting(s) || (Focusing(s) && !Zooming(s) && !InVideo(s))
    case StopSmoothZoom => Zooming(s) || (Resting(s) && !InVideo(s))
    case PerformAutofocus => Resting(s) || (Zooming(s) && !Focusing(s) && !InVideo(s) && !InBracket(s))
    case CancelAutofocus => Focusing(s) || (InSession(s) && !InVideo(s) && !ReadyForPicture(s) && !InBracket(s))
    case UseBuffersImageCapture => Resting(s)
    case StartImageCapture => ReadyForPicture(s) || (InBracket(s) && !Zooming(s))
    case StartBracketCapture => ReadyForPicture(s) && !InVideo(s)
    case StopImageCapture => TakingPicture(s) || (InBracket(s) && !Zooming(s))
    case StopBracketCapture => !InVideo(s) && (TakingPicture(s) || (InBracket(s) && !Zooming(s)))
    case PreviewFlushBuffers | SetTimeout | CancelTimeout | TimeoutExpired | StartFd | StopFd | SwitchToExecuting
       | DisableMirror | FocusMoveMsg | Apk => false
  }

  lemma AcceptedExactlyIfAllowed(state: AdapterState, op: Command)
    ensures Transition(state, op).Some? <==> Accepts(state, op)
  {
  }

  /** The camera gets its buffers with one command and loses them with another. */
  lemma BuffersComeAndGo(state: AdapterState, op: Command)
    requires Transition(state, op).Some?
    ensures !HasBuffers(state) && HasBuffers(Transition(state, op).value) <==> op.UseBuffersPreview?
    ensures HasBuffers(state) && !HasBuffers(Transition(state, op).value) <==> op.StopPreview?
  {
  }

  /** Zooming starts and stops with its own two commands and with nothing else. */
  lemma ZoomingStartsAndStopsByItsCommands(state: AdapterState, op: Command)
    requires Transition(state, op).Some?
    ensures !Zooming(state) && Zooming(Transition(state, op).value) <==> op.StartSmoothZoom?
    ensures Zooming(state) && !Zooming(Transition(state, op).value) <==> Zooming(state) && op.StopSmoothZoom?
  {
  }

  /** Focusing starts with its own command, and ends when it is cancelled or when a picture is asked for. */
  lemma FocusingStartsAndStopsByItsCommands(state: AdapterState, op: Command)
    requires Transition(state, op).Some?
    ensures !Focusing(state) && Focusing(Transition(state, op).value) <==> op.PerformAutofocus?
    ensures Focusing(state) && !Focusing(Transition(state, op).value)
       <==> Focusing(state) && (op.CancelAutofocus? || op.QueryBufferSizeImageCapture?)
  {
  }

  /** A picture is loaded, taken and ended, or bracketed, by its own commands; cancelling the focus ends it too. */
  lemma PicturesAreTakenByTheirCommands(state: AdapterState, op: Command)
    requires Transition(state, op).Some?
    ensures var next := Transition(state, op).value;
            && (!ReadyForPicture(state) && ReadyForPicture(next) <==> op.UseBuffersImageCapture?)
            && (ReadyForPicture(state) && !ReadyForPicture(next) <==>
                  ReadyForPicture(state) && (op.StartImageCapture? || op.StartBracketCapture?))
            && (!TakingPicture(state) && TakingPicture(next) <==> op.StartImageCapture?)
            && (TakingPicture(state) && !TakingPicture(next) <==>
                  TakingPicture(state) && (op.StopImageCapture? || op.StopBracketCapture? || op.CancelAutofocus?))
            && (!InBracket(state) && InBracket(next) <==> op.StartBracketCapture?)
            && (InBracket(state) && !InBracket(next) <==>
                  InBracket(state) && (op.StopImageCapture? || op.StopBracketCapture? || op.StartImageCapture?))
  {
  }

  // --- The auto-focus thread ---

  /** What `beginAutoFocusThread` leaves behind: it commits whether or not its
      cancel command was accepted, so a rejected one re-commits the current state. */
  function AutoFocusStep(state: AdapterState): AdapterState {
    NextOrSame(state, CancelAutofocus)
  }

  function AutoFocusSteps(state: AdapterState, n: nat): AdapterState
    decreases n
  {
    if n == 0 then state else AutoFocusSteps(AutoFocusStep(state), n - 1)
  }

  /** However many auto-focus threads finish in a row, only the first can change the state. */
  lemma {:induction false} AutoFocusStepsCollapse(state: AdapterState, n: nat)
    ensures AutoFocusSteps(state, n) == if n == 0 then state else AutoFocusStep(state)
    decreases n
  {
    if n > 0 {
      AutoFocusStepsCollapse(AutoFocusStep(state), n - 1);
    }
  }

  /** The thread ends the focusing, or a picture outside a recording, and nothing else. */
  lemma AutoFocusStepEndsFocusing(state: AdapterState)
    ensures var next := AutoFocusStep(state);
            && !Focusing(next) && (TakingPicture(next) <==> TakingPicture(state) && InVideo(state))
            && (HasBuffers(next) <==> HasBuffers(state)) && (InSession(next) <==> InSession(state))
            && (InVideo(next) <==> InVideo(state)) && (Zooming(next) <==> Zooming(state))
            && (ReadyForPicture(next) <==> ReadyForPicture(state)) && (InBracket(next) <==> InBracket(state))
  {
  }

  // --- Reachability ---

  function StateAfter(state: AdapterState, ops: seq<Command>): AdapterState
    decreases |ops|
  {
    if ops == [] then state
    else NextOrSame(StateAfter(state, ops[..|ops| - 1]), ops[|ops| - 1])
  }

  lemma {:induction false} BracketingZoomStaysOut(ops: seq<Command>)
    ensures !StateAfter(Initialized, ops).BracketingZoom?
    decreases |ops|
  {
    if ops != [] {
      BracketingZoomStaysOut(ops[..|ops| - 1]);
    }
  }

  /** A state and a command that lead to a given reachable state. */
  function Predecessor(state: AdapterState): (AdapterState, Command) {
    match state
    case Initialized | BracketingZoom => (Initialized, QueryResolutionPreview)
    case LoadedPreview => (Initialized, UseBuffersPreview)
    case Preview => (LoadedPreview, StartPreview)
    case LoadedCapture => (Preview, UseBuffersImageCapture)
    case Capture => (LoadedCapture, StartImageCapture)
    case Bracketing => (LoadedCapture, StartBracketCapture)
    case AutoFocus => (Preview, PerformAutofocus)
    case Zoom => (Preview, StartSmoothZoom)
    case Video => (Preview, StartVideo)
    case VideoAutoFocus => (Video, PerformAutofocus)
    case VideoZoom => (Video, StartSmoothZoom)
    case VideoLoadedCapture => (Video, UseBuffersImageCapture)
    case VideoCapture => (VideoLoadedCapture, StartImageCapture)
    case AutoFocusZoom => (AutoFocus, StartSmoothZoom)
  }

  function Depth(state: AdapterState): nat {
    match state
    case Initialized | BracketingZoom => 0
    case LoadedPreview => 1
    case Preview => 2
    case LoadedCapture | AutoFocus | Zoom | Video => 3
    case Capture | Bracketing | VideoAutoFocus | VideoZoom | VideoLoadedCapture | AutoFocusZoom => 4
    case VideoCapture => 5
  }

  lemma PredecessorLeads(state: AdapterState)
    requires !state.BracketingZoom? && !state.Initialized?
    ensures var (from, op) := Predecessor(state);
            NextOrSame(from, op) == state && !from.BracketingZoom? && Depth(from) < Depth(state)
  {
  }

  lemma {:induction false} ScriptTo(state: AdapterState) returns (ops: seq<Command>)
    requires !state.BracketingZoom?
    ensures StateAfter(Initialized, ops) == state
    decreases Depth(state)
  {
    if state.Initialized? {
      ops := [];
    } else {
      var (from, op) := Predecessor(state);
      PredecessorLeads(state);
      var script := ScriptTo(from);
      ops := script + [op];
      assert ops[..|ops| - 1] == script;
    }
  }

  /** Fourteen of the fifteen states can be reached; BracketingZoom is dead code. */
  lemma ReachableExactlyIfNotBracketingZoom(state: AdapterState)
    ensures (exists ops: seq<Command> :: StateAfter(Initialized, ops) == state) <==> !state.BracketingZoom?
  {
    if !state.BracketingZoom? {
      var ops := ScriptTo(state);
    } else {
      forall ops: seq<Command> ensures StateAfter(Initialized, ops) != state {
        BracketingZoomStaysOut(ops);
      }
    }
  }

  // --- Rolling back to the initial state ---

  /** The command `rollbackToPreviousState` sends, or None where it gives up. */
  function RollbackCommand(state: AdapterState): Option<Command> {
    match state
    case Initialized | LoadedPreview | LoadedCapture | VideoLoadedCapture => None
    case Preview => Some(StopPreview)
    case Capture | VideoCapture => Some(StopImageCapture)
    case Bracketing => Some(StopBracketCapture)
    case AutoFocus | VideoAutoFocus => Some(CancelAutofocus)
    case Zoom | AutoFocusZoom | VideoZoom | BracketingZoom => Some(StopSmoothZoom)
    case Video => Some(StopVideo)
  }

  /** It stops what was started last: zooming before focusing, then pictures, the recording and the preview. */
  lemma RollbackStopsWhatIsUnderWay(state: AdapterState)
    ensures RollbackCommand(state)
         == if !InSession(state) || ReadyForPicture(state) then None
            else if Zooming(state) then Some(StopSmoothZoom)
            else if Focusing(state) then Some(CancelAutofocus)
            else if InBracket(state) then Some(StopBracketCapture)
            else if TakingPicture(state) then Some(StopImageCapture)
            else if InVideo(state) then Some(StopVideo)
            else Some(StopPreview)
  {
  }

  /** The three states the rollback gives up on. */
  predicate Loaded(state: AdapterState) {
    state.LoadedPreview? || state.LoadedCapture? || state.VideoLoadedCapture?
  }

  /** How many commands away from the initial state a state is. */
  function Rank(state: AdapterState): nat {
    match state
    case Initialized => 0
    case Preview | LoadedPreview => 1
    case Capture | Bracketing | AutoFocus | Zoom | Video | LoadedCapture => 2
    case VideoAutoFocus | VideoCapture | AutoFocusZoom | VideoZoom | BracketingZoom | VideoLoadedCapture => 3
  }

  lemma {:induction false} AutoFocusNeverRaisesRank(state: AdapterState, n: nat)
    ensures Rank(AutoFocusSteps(state, n)) <= Rank(state)
    ensures AutoFocusSteps(state, n).Initialized? <==> state.Initialized?
  {
    AutoFocusStepsCollapse(state, n);
  }

  /** The command chosen for a state lowers its rank, sent at once or after an auto-focus step. */
  lemma RollbackCommandLowersRank(seen: AdapterState)
    requires RollbackCommand(seen).Some?
    ensures var moved := Transition(seen, RollbackCommand(seen).value);
            moved.Some? && Rank(moved.value) < Rank(seen)
    ensures var moved := Transition(AutoFocusStep(seen), RollbackCommand(seen).value);
            moved.Some? ==> Rank(moved.value) < Rank(seen)
  {
  }

  /**
   One turn of the rollback loop. The loop reads the state (`seen`) and then
   sends the command for it; auto-focus threads may finish before the read,
   between the read and the send, and after the send. If the command is accepted,
   the rank has dropped.
   */
  lemma AcceptedRollbackCommandLowersRank(start: AdapterState, before: nat, between: nat, after: nat)
    requires !start.Initialized?
    requires RollbackCommand(AutoFocusSteps(start, before)).Some?
    ensures var seen := AutoFocusSteps(start, before);
            var sentIn := AutoFocusSteps(seen, between);
            var moved := Transition(sentIn, RollbackCommand(seen).value);
            moved.Some? ==> Rank(AutoFocusSteps(moved.value, after)) < Rank(start)
  {
    var seen := AutoFocusSteps(start, before);
    var sentIn := AutoFocusSteps(seen, between);
    AutoFocusNeverRaisesRank(start, before);
    AutoFocusStepsCollapse(seen, between);
    var moved := Transition(sentIn, RollbackCommand(seen).value);
    if moved.Some? {
      RollbackCommandLowersRank(seen);
      AutoFocusNeverRaisesRank(moved.value, after);
    }
  }
}
