/**
 When the driver may write to a buffer that the window has. Disabling the display gives the buffers with the camera to the
 window and does not stop the camera: the steps that bring this about, exactly, and runs without them.
 */
module BufferWindow {
  import opened Wrappers
  import opened AdapterStates
  import opened CameraAdapterModel
  import opened BufferSystem
  import opened BufferOwnership
  import opened BufferSharing
  import D = DisplayModel

  /** Some buffer is with the driver and with the window. */
  ghost predicate SharedWithWindow(s: System) {
    exists b :: b in s.driver && s.WithWindow(b)
  }

  /** That can only be a buffer the display has given back. */
  ghost predicate CancelledShared(s: System) {
    exists b :: b in s.driver && b in s.display.cancelled
  }

  lemma SharedIsCancelled(s: System)
    requires s.Sound()
    ensures SharedWithWindow(s) <==> CancelledShared(s)
  {
    if b :| b in s.driver && s.WithWindow(b) {
      DriverHoldsFreeBuffers(s, b);
      assert b in s.display.cancelled;
    }
    if b :| b in s.driver && b in s.display.cancelled {
      assert s.WithWindow(b);
    }
  }

  // --- The steps ---

  /** The window has been given a buffer that starting the driver would queue. */
  ghost predicate CancelledByStart(s: System, b: Buffer) {
    b in s.adapter.preview && s.adapter.preview[b] == 0 && b in s.display.cancelled
  }

  /** It has been given one whose only count is a video count. */
  ghost predicate CancelledByStop(s: System, b: Buffer) {
    CancelledByStart(s, b) && b in s.adapter.video && s.adapter.video[b] == 1
  }

  /** It has been given one whose only count is a preview count. */
  ghost predicate CancelledByPreviewReturn(s: System, b: Buffer) {
    && b in s.adapter.preview && s.adapter.preview[b] == 1
    && (b in s.adapter.video ==> s.adapter.video[b] == 0) && b in s.display.cancelled
  }

  ghost predicate SomeCancelledByStart(s: System) {
    exists b :: CancelledByStart(s, b)
  }

  ghost predicate SomeCancelledByStop(s: System) {
    exists b :: CancelledByStop(s, b)
  }

  /** The display gives back a buffer the driver has. */
  ghost predicate GivesAway(s: System, cancels: set<Buffer>) {
    exists b :: b in s.driver && b in cancels
  }

  ghost predicate SharesWithWindowByReturn(s: System, step: Step) {
    s.previewing &&
    if step.PreviewDone? then CancelledByPreviewReturn(s, step.b)
    else (step.VideoDone? || step.LateVideoReturn?) && CancelledByStop(s, step.b)
  }

  /** The steps after which the driver shares a buffer with the window. */
  ghost predicate SharesWithWindowBy(s: System, step: Step) {
    if step.GivesBack? then GivesAway(s, step.cancels)
    else if step.Issue? then
      || (StopsRecording(s, step.op) && s.previewing && SomeCancelledByStop(s))
      || (StartsDriver(s, step.op, step.args) && SomeCancelledByStart(s))
    else if IsDriver(step) then Restarts(s, step) && SomeCancelledByStart(s)
    else SharesWithWindowByReturn(s, step)
  }

  /** What the steps below need of the invariant. */
  ghost predicate CancelledApart(s: System) {
    HoldersKnown(s) && !CancelledShared(s) && forall b <- s.display.cancelled :: b !in s.display.window
  }

  lemma StopSharesWithWindowExactlyIf(s: System, args: Arguments)
    requires CancelledApart(s) && StopsRecording(s, StopVideo)
    ensures CancelledShared(Issued(s, StopVideo, args)) <==> s.previewing && SomeCancelledByStop(s)
  {
    var r := Issued(s, StopVideo, args);
    StopVideoWritesOff(s, args);
    if b :| s.previewing && CancelledByStop(s, b) {
      assert b in Reclaimed(s.adapter) && b in r.driver && b in r.display.cancelled;
    }
    if b :| b in r.driver && b in r.display.cancelled {
      assert b in Reclaimed(s.adapter) && CancelledByStop(s, b);
    }
  }

  /** The driver queues the free buffers, or no more than it has. */
  lemma StartSharesWithWindowExactlyIf(s: System, r: System, starts: bool)
    requires !CancelledShared(s) && if starts then r.driver == Free(s.adapter) else r.driver <= s.driver
    requires r.display == s.display
    ensures CancelledShared(r) <==> starts && SomeCancelledByStart(s)
  {
    if b :| starts && CancelledByStart(s, b) {
      assert b in r.driver && b in r.display.cancelled;
    }
    if b :| b in r.driver && b in r.display.cancelled {
      assert CancelledByStart(s, b);
    }
  }

  lemma CommandSharesWithWindowExactlyIf(s: System, op: AdapterStates.Command, args: Arguments)
    requires CancelledApart(s) && MayIssue(s, op, args)
    ensures CancelledShared(Issued(s, op, args)) <==> SharesWithWindowBy(s, Issue(op, args))
  {
    if StopsRecording(s, op) {
      StopSharesWithWindowExactlyIf(s, args);
    } else {
      OtherCommandMovesNoFrames(s, op, args);
      StartSharesWithWindowExactlyIf(s, Issued(s, op, args), StartsDriver(s, op, args));
    }
  }

  /** One count of `b` is taken down; the display has been given nothing more. */
  lemma ReturnSharesWithWindowExactlyIf(s: System, b: Buffer, frameType: FrameType)
    requires s.adapter.Valid() && OnPreviewBuffer(frameType) && b in s.adapter.preview && !b.Null?
    requires if frameType.VideoFrameSync? then b in s.adapter.video && s.adapter.video[b] > 0
             else s.adapter.preview[b] > 0
    requires !CancelledShared(s)
    ensures CancelledShared(Return(s, b, frameType))
       <==> s.previewing && s.adapter.Combined(b) == 1 && b in s.display.cancelled
  {
    var r := Return(s, b, frameType);
    ReturnSettles(s, b, frameType);
    if s.previewing && s.adapter.Combined(b) == 1 && b in s.display.cancelled {
      assert b in r.driver && b in r.display.cancelled;
    }
    if other :| other in r.driver && other in r.display.cancelled {
      assert other == b;
    }
  }

  lemma NothingMoreShared(s: System, r: System)
    requires !CancelledShared(s) && r.driver <= s.driver && r.display.cancelled <= s.display.cancelled
    ensures !CancelledShared(r)
  {
    forall b | b in r.driver ensures b !in r.display.cancelled {
      assert b in s.driver;
    }
  }

  lemma PreviewDoneSharesWithWindowExactlyIf(s: System, b: Buffer, frameType: FrameType, called: bool)
    requires CancelledApart(s) && CanHappen(s, PreviewDone(b, frameType, called))
    ensures CancelledShared(PreviewClientDone(s, b, frameType, called)) <==> s.previewing && CancelledByPreviewReturn(s, b)
  {
    if called {
      var t := s.(clients := s.clients - multiset{b});
      NothingMoreShared(s, t);
      ReturnSharesWithWindowExactlyIf(t, b, frameType);
    } else {
      var t := s.(sending := s.sending - multiset{b});
      NothingMoreShared(s, t);
      ReturnSharesWithWindowExactlyIf(t, b, frameType);
    }
  }

  /** A video return, for a client of this recording or of an earlier one. */
  lemma VideoReturnSharesWithWindowExactlyIf(s: System, t: System, b: Buffer)
    requires CancelledApart(s) && b in s.adapter.video && s.adapter.video[b] > 0
    requires t.adapter == s.adapter && t.driver == s.driver && t.previewing == s.previewing && t.display == s.display
    ensures CancelledShared(Return(t, b, VideoFrameSync)) <==> s.previewing && CancelledByStop(s, b)
  {
    NothingMoreShared(s, t);
    ReturnSharesWithWindowExactlyIf(t, b, VideoFrameSync);
  }

  lemma VideoDoneSharesWithWindowExactlyIf(s: System, b: Buffer, called: bool)
    requires CancelledApart(s) && CanHappen(s, VideoDone(b, called))
    ensures CancelledShared(VideoClientDone(s, b, called)) <==> s.previewing && CancelledByStop(s, b)
  {
    if s.adapter.video[b] <= 0 {
      NothingMoreShared(s, VideoClientDone(s, b, called));
    } else if called {
      VideoReturnSharesWithWindowExactlyIf(s, s.(recorder := s.recorder - multiset{b}), b);
    } else {
      VideoReturnSharesWithWindowExactlyIf(s, s.(sendingVideo := s.sendingVideo - multiset{b}), b);
    }
  }

  lemma LateReturnSharesWithWindowExactlyIf(s: System, b: Buffer)
    requires CancelledApart(s) && CanHappen(s, LateVideoReturn(b))
    ensures CancelledShared(ReturnLate(s, b)) <==> s.previewing && CancelledByStop(s, b)
  {
    if RefCount(s.adapter, b, VideoFrameSync) > 0 {
      VideoReturnSharesWithWindowExactlyIf(s, s.(late := s.late - multiset{b}, uncounted := s.uncounted + multiset{b}), b);
    } else {
      NothingMoreShared(s, ReturnLate(s, b));
    }
  }

  /** What the window gives out again it was due to give back. */
  lemma DisplayTurnSharesNothingWithWindow(s: System, outcome: D.Dequeue)
    requires CancelledApart(s) && CanHappen(s, DisplayTurn(outcome))
    ensures !CancelledShared(TurnDisplay(s, outcome))
  {
    var t := s.(display := D.ServeQueue(s.display, outcome));
    NothingMoreShared(s, t);
    if D.HandedBack(s.display, outcome).Some? {
      ReturnSharesWithWindowExactlyIf(t, outcome.b, PreviewFrameSync);
    }
  }

  lemma ReturnStepSharesWithWindowExactlyIf(s: System, step: Step)
    requires CancelledApart(s) && CanHappen(s, step) && IsReturn(step)
    ensures CancelledShared(AfterReturn(s, step)) <==> SharesWithWindowByReturn(s, step)
  {
    if step.PreviewDone? {
      PreviewDoneSharesWithWindowExactlyIf(s, step.b, step.frameType, step.called);
    } else if step.DisplayTurn? {
      DisplayTurnSharesNothingWithWindow(s, step.outcome);
    } else if step.VideoDone? {
      VideoDoneSharesWithWindowExactlyIf(s, step.b, step.called);
    } else if step.LateVideoReturn? {
      LateReturnSharesWithWindowExactlyIf(s, step.b);
    } else {
      SurplusReturnChangesNothing(s, step.b, step.frameType);
    }
  }

  lemma GivingBackSharesExactlyIf(s: System, cancels: set<Buffer>, emptied: bool)
    requires !CancelledShared(s)
    ensures CancelledShared(s.(display := D.GiveBack(s.display, cancels, emptied))) <==> GivesAway(s, cancels)
  {
    var r := s.(display := D.GiveBack(s.display, cancels, emptied));
    if b :| b in s.driver && b in cancels {
      assert b in r.driver && b in r.display.cancelled;
    }
    if b :| b in r.driver && b in r.display.cancelled {
      assert b in cancels;
    }
  }

  lemma CallGivesNothingBack(s: System, step: Step)
    requires s.adapter.Valid() && CanHappen(s, step) && IsCall(step) && !step.GivesBack?
    ensures After(s, step).driver == s.driver && After(s, step).display.cancelled <= s.display.cancelled
  {
  }

  lemma GivingBackStep(s: System, step: Step)
    requires s.adapter.Valid() && CanHappen(s, step) && step.GivesBack?
    ensures After(s, step) == s.(display := D.GiveBack(s.display, step.cancels, step.emptied))
  {
  }

  lemma GivingBackStepSharesExactlyIf(s: System, step: Step)
    requires s.adapter.Valid() && !CancelledShared(s) && CanHappen(s, step) && step.GivesBack?
    ensures CancelledShared(After(s, step)) <==> SharesWithWindowBy(s, step)
  {
    GivingBackStep(s, step);
    GivingBackSharesExactlyIf(s, step.cancels, step.emptied);
  }

  lemma CallSharesNothingWithWindow(s: System, step: Step)
    requires s.adapter.Valid() && !CancelledShared(s) && CanHappen(s, step) && IsCall(step) && !step.GivesBack?
    ensures !CancelledShared(After(s, step)) && !SharesWithWindowBy(s, step)
  {
    CallGivesNothingBack(s, step);
    NothingMoreShared(s, After(s, step));
  }

  lemma CallStepSharesWithWindowExactlyIf(s: System, step: Step)
    requires CancelledApart(s) && CanHappen(s, step) && IsCall(step)
    ensures CancelledShared(After(s, step)) <==> SharesWithWindowBy(s, step)
  {
    if step.GivesBack? {
      GivingBackStepSharesExactlyIf(s, step);
    } else {
      CallSharesNothingWithWindow(s, step);
    }
  }

  lemma OtherStepSharesNothingWithWindow(s: System, step: Step)
    requires CancelledApart(s) && CanHappen(s, step)
    requires step.OpenSession? || step.AutoFocusFinishes? || step.DriverCompletes?
    ensures !CancelledShared(After(s, step))
  {
    if step.DriverCompletes? {
      FrameSharesNothingWithWindow(s, step.b, step.previewClients, step.videoClients, step.queueEmpty);
    } else if step.OpenSession? {
      SessionStartsWithoutDriver(s, step);
    } else {
      NothingMoreShared(s, s.(adapter := FinishAutoFocus(s.adapter)));
    }
  }

  lemma SessionStartsWithoutDriver(s: System, step: Step)
    requires HoldersKnown(s) && CanHappen(s, step) && step.OpenSession?
    ensures After(s, step).driver == {}
  {
  }

  lemma FrameSharesNothingWithWindow(s: System, b: Buffer, previewClients: nat, videoClients: nat, queueEmpty: bool)
    requires !CancelledShared(s)
    ensures !CancelledShared(CompleteFrame(s, b, previewClients, videoClients, queueEmpty))
  {
    NothingMoreShared(s, CompleteFrame(s, b, previewClients, videoClients, queueEmpty));
  }

  lemma DriverStepQueues(s: System, step: Step)
    requires s.adapter.Valid() && CanHappen(s, step) && IsDriver(step)
    ensures var r := After(s, step);
            r.display == s.display && if Restarts(s, step) then r.driver == Free(s.adapter) else r.driver <= s.driver
  {
  }

  lemma DriverStepSharesWithWindowExactlyIf(s: System, step: Step)
    requires CancelledApart(s) && CanHappen(s, step) && IsDriver(step)
    ensures CancelledShared(After(s, step)) <==> SharesWithWindowBy(s, step)
  {
    DriverStepQueues(s, step);
    StartSharesWithWindowExactlyIf(s, After(s, step), Restarts(s, step));
  }

  lemma IssueSharesWithWindowExactlyIf(s: System, step: Step)
    requires CancelledApart(s) && CanHappen(s, step) && step.Issue?
    ensures CancelledShared(After(s, step)) <==> SharesWithWindowBy(s, step)
  {
    CommandSharesWithWindowExactlyIf(s, step.op, step.args);
  }

  lemma FrameStepSharesWithWindowExactlyIf(s: System, step: Step)
    requires CancelledApart(s) && CanHappen(s, step) && !step.Issue? && !IsDriver(step) && !IsCall(step)
    ensures CancelledShared(After(s, step)) <==> SharesWithWindowBy(s, step)
  {
    if IsReturn(step) {
      ReturnStepSharesWithWindowExactlyIf(s, step);
    } else {
      OtherStepSharesNothingWithWindow(s, step);
    }
  }

  lemma ApartStepSharesExactlyIf(s: System, step: Step)
    requires CancelledApart(s) && CanHappen(s, step)
    ensures CancelledShared(After(s, step)) <==> SharesWithWindowBy(s, step)
  {
    if step.Issue? {
      IssueSharesWithWindowExactlyIf(s, step);
    } else if IsDriver(step) {
      DriverStepSharesWithWindowExactlyIf(s, step);
    } else if IsCall(step) {
      CallStepSharesWithWindowExactlyIf(s, step);
    } else {
      FrameStepSharesWithWindowExactlyIf(s, step);
    }
  }

  lemma SoundIsApart(s: System)
    requires s.Sound() && !SharedWithWindow(s)
    ensures CancelledApart(s)
  {
    HoldersAreKnown(s);
    SharedIsCancelled(s);
  }

  /** As long as the driver shares nothing with the window, a step makes it do so exactly in these cases. */
  lemma StepSharesWithWindowExactlyIf(s: System, step: Step)
    requires s.Sound() && !SharedWithWindow(s) && CanHappen(s, step)
    ensures SharedWithWindow(After(s, step)) <==> SharesWithWindowBy(s, step)
  {
    SoundIsApart(s);
    ApartStepSharesExactlyIf(s, step);
    StepKeepsSound(s, step);
    SharedIsCancelled(After(s, step));
  }

  /** The first hand-back of a session, if the window takes everything: it shares a buffer exactly if the driver has any. */
  lemma DisablingSharesExactlyIf(s: System)
    requires s.Sound() && s.display.Intact()
    ensures CanHappen(s, GivesBack(s.display.camera, true)) ==>
              (SharedWithWindow(After(s, GivesBack(s.display.camera, true))) <==> s.driver != {})
  {
    SharedIsCancelled(s);
    if CanHappen(s, GivesBack(s.display.camera, true)) {
      StepSharesWithWindowExactlyIf(s, GivesBack(s.display.camera, true));
      if s.driver != {} {
        var b :| b in s.driver;
        DriverHoldsFreeBuffers(s, b);
        assert b in s.driver && b in s.display.camera;
      }
    }
  }

  // --- Runs ---

  /** No step of the run is one of these. */
  ghost predicate NeverSharesWithWindow(s: System, steps: seq<Step>)
    decreases |steps|
  {
    steps == [] ||
    var earlier, last := steps[..|steps| - 1], steps[|steps| - 1];
    NeverSharesWithWindow(s, earlier) && (Run(s, steps).Some? ==> !SharesWithWindowBy(Run(s, earlier).value, last))
  }

  /** The driver shares nothing with the window at any moment of the run. */
  ghost predicate NeverSharedWithWindow(s: System, steps: seq<Step>)
    decreases |steps|
  {
    && (Run(s, steps).Some? ==> !SharedWithWindow(Run(s, steps).value))
    && (steps != [] ==> NeverSharedWithWindow(s, steps[..|steps| - 1]))
  }

  /** Exactly the runs without such a step share nothing with the window at any moment. */
  lemma {:induction false} RunsShareWithWindowExactlyIf(s: System, steps: seq<Step>)
    requires s.Sound() && !SharedWithWindow(s)
    ensures NeverSharedWithWindow(s, steps) <==> NeverSharesWithWindow(s, steps)
    decreases |steps|
  {
    if steps != [] {
      var earlier, last := steps[..|steps| - 1], steps[|steps| - 1];
      RunsShareWithWindowExactlyIf(s, earlier);
      if NeverSharedWithWindow(s, earlier) && Run(s, steps).Some? {
        StepSharesWithWindowExactlyIf(Run(s, earlier).value, last);
      }
    }
  }

  // --- Tidy runs ---

  /** Buffers are given back only when the driver has stopped, and it does not start again before the next session. */
  predicate Tidy(s: System, step: Step) {
    && (step.GivesBack? ==> !s.previewing)
    && ((step.Issue? && StartsDriver(s, step.op, step.args)) || Restarts(s, step) ==> s.display.cancelled == {})
  }

  ghost predicate AllTidy(s: System, steps: seq<Step>)
    decreases |steps|
  {
    steps == [] ||
    var earlier, last := steps[..|steps| - 1], steps[|steps| - 1];
    AllTidy(s, earlier) && (Run(s, steps).Some? ==> Tidy(Run(s, earlier).value, last))
  }

  /** While the driver streams, the window has been given nothing. */
  predicate Separate(s: System) {
    s.previewing ==> s.display.cancelled == {}
  }

  lemma TidyStepKeepsSeparate(s: System, step: Step)
    requires s.adapter.Valid() && Separate(s) && CanHappen(s, step) && Tidy(s, step)
    ensures Separate(After(s, step))
  {
    if step.Issue? {
      OnlyPreviewCommandsRestart(s, step.op, step.args);
    } else if IsReturn(step) {
      ReturnActsOnDisplay(s, step);
      ReturnKeepsPreviewing(s, step);
    }
  }

  lemma ReturnKeepsPreviewing(s: System, step: Step)
    requires s.adapter.Valid() && CanHappen(s, step) && IsReturn(step)
    ensures AfterReturn(s, step).previewing == s.previewing
  {
  }

  lemma {:induction false} TidyRunsStaySeparate(s: System, steps: seq<Step>)
    requires s.Sound() && Separate(s)
    ensures Run(s, steps).Some? && AllTidy(s, steps) ==> Separate(Run(s, steps).value)
    decreases |steps|
  {
    if steps != [] && Run(s, steps).Some? && AllTidy(s, steps) {
      var earlier, last := steps[..|steps| - 1], steps[|steps| - 1];
      TidyRunsStaySeparate(s, earlier);
      TidyStepKeepsSeparate(Run(s, earlier).value, last);
    }
  }

  /** After any tidy run the window has none of the driver's buffers in any way. */
  lemma TidyRunsKeepWindowApart(s: System, steps: seq<Step>, b: Buffer)
    requires s.Sound() && Separate(s)
    ensures Run(s, steps).Some? && AllTidy(s, steps) && b in Run(s, steps).value.driver ==>
              !Run(s, steps).value.WithWindow(b)
  {
    TidyRunsStaySeparate(s, steps);
    if Run(s, steps).Some? && AllTidy(s, steps) && b in Run(s, steps).value.driver {
      DriverHoldsFreeBuffers(Run(s, steps).value, b);
    }
  }

  /** After any run that is tidy and patient the driver shares nothing with anybody. */
  lemma TidyPatientRunsShareNothing(s: System, steps: seq<Step>, b: Buffer)
    requires s.Sound() && Separate(s) && Settled(s)
    ensures Run(s, steps).Some? && AllTidy(s, steps) && AllPatient(s, steps) && b in Run(s, steps).value.driver ==>
              var r := Run(s, steps).value;
              r.PreviewHolders(b) == 0 && r.VideoHolders(b) == 0 && !r.WithVideoClient(b) && !r.WithWindow(b)
  {
    TidyRunsKeepWindowApart(s, steps, b);
    PatientRunsShareNothing(s, steps, b);
  }
}
