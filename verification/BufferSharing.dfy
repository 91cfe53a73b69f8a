/**
 When the driver may write to a buffer that a video client has: the steps that bring this about, exactly, and runs
 without them.
 */
module BufferSharing {
  import opened Wrappers
  import opened AdapterStates
  import opened CameraAdapterModel
  import opened BufferSystem
  import opened BufferOwnership
  import D = DisplayModel

  // --- What is shared, and by which steps ---

  /** Some buffer is with the driver and with a video client, or about to go to one. */
  ghost predicate Shared(s: System) {
    exists b :: b in s.driver && s.WithVideoClient(b)
  }

  /** A video client has a buffer that starting the driver would queue. */
  ghost predicate SharedByStart(s: System, b: Buffer) {
    b in s.adapter.preview && s.adapter.preview[b] == 0 && s.WithVideoClient(b)
  }

  /** A buffer that stopping the recording hands to the driver although a video client has it. */
  ghost predicate SharedByStop(s: System, b: Buffer) {
    SharedByStart(s, b) && b in s.adapter.video && s.adapter.video[b] == 1
  }

  /** The only count of the buffer is a preview count, and a video client has it without one. */
  ghost predicate SharedByPreviewReturn(s: System, b: Buffer) {
    && b in s.adapter.preview && s.adapter.preview[b] == 1
    && (b in s.adapter.video ==> s.adapter.video[b] == 0) && s.WithVideoClient(b)
  }

  /** The only count of the buffer is a video count, and several video clients have it. */
  ghost predicate SharedByVideoReturn(s: System, b: Buffer) {
    && b in s.adapter.preview && s.adapter.preview[b] == 0
    && b in s.adapter.video && s.adapter.video[b] == 1
    && s.sendingVideo[b] + s.recorder[b] + s.late[b] >= 2
  }

  /** The driver queues the free buffers by itself. */
  predicate Restarts(s: System, step: Step) {
    (step.PictureEnds? && step.taken && !s.previewing && !s.refusing) || (step.SensorResets? && step.ok)
  }

  ghost predicate SharesByCommand(s: System, op: AdapterStates.Command, args: Arguments) {
    || (StopsRecording(s, op) && s.previewing && exists b :: SharedByStop(s, b))
    || (StartsDriver(s, op, args) && exists b :: SharedByStart(s, b))
  }

  ghost predicate SharesByReturn(s: System, step: Step) {
    s.previewing &&
    if step.PreviewDone? then SharedByPreviewReturn(s, step.b)
    else if step.DisplayTurn? then D.HandedBack(s.display, step.outcome).Some? && SharedByPreviewReturn(s, step.outcome.b)
    else (step.VideoDone? || step.LateVideoReturn?) && SharedByVideoReturn(s, step.b)
  }

  /** The steps after which the driver shares a buffer with a video client. */
  ghost predicate SharesBy(s: System, step: Step) {
    if step.Issue? then SharesByCommand(s, step.op, step.args)
    else if IsDriver(step) then Restarts(s, step) && exists b :: SharedByStart(s, b)
    else SharesByReturn(s, step)
  }

  /** Stopping a recording shares a buffer exactly if a video client has one whose only count is a single video count. */
  lemma StopVideoSharesExactlyIf(s: System, args: Arguments)
    requires HoldersKnown(s) && !Shared(s) && StopsRecording(s, StopVideo)
    ensures Shared(Issued(s, StopVideo, args)) <==> s.previewing && exists b :: SharedByStop(s, b)
  {
    var r := Issued(s, StopVideo, args);
    StopVideoWritesOff(s, args);
    if b :| s.previewing && SharedByStop(s, b) {
      assert b in Reclaimed(s.adapter) && b in r.driver && r.WithVideoClient(b);
    }
    if b :| b in r.driver && r.WithVideoClient(b) {
      assert b in s.late + s.sendingVideo + s.recorder && b in Reclaimed(s.adapter);
      assert SharedByStop(s, b);
    }
  }

  lemma CommandSharesExactlyIf(s: System, op: AdapterStates.Command, args: Arguments)
    requires HoldersKnown(s) && !Shared(s) && MayIssue(s, op, args)
    ensures Shared(Issued(s, op, args)) <==> SharesByCommand(s, op, args)
  {
    if StopsRecording(s, op) {
      StopVideoSharesExactlyIf(s, args);
    } else {
      OtherCommandMovesNoFrames(s, op, args);
      StartSharesExactlyIf(s, Issued(s, op, args), StartsDriver(s, op, args));
    }
  }

  /** Clients keep what they have, and the driver queues the free buffers, or no more than it has. */
  lemma StartSharesExactlyIf(s: System, r: System, starts: bool)
    requires !Shared(s) && if starts then r.driver == Free(s.adapter) else r.driver <= s.driver
    requires r.sendingVideo == s.sendingVideo && r.recorder == s.recorder && r.late == s.late
    ensures Shared(r) <==> starts && exists b :: SharedByStart(s, b)
  {
    if b :| starts && SharedByStart(s, b) {
      assert b in r.driver && r.WithVideoClient(b);
    }
    if b :| b in r.driver && r.WithVideoClient(b) {
      assert s.WithVideoClient(b) && SharedByStart(s, b);
    }
  }

  /** The driver queues again: a buffer is shared exactly if a video client has a free one. */
  lemma RestartSharesExactlyIf(s: System, step: Step)
    requires s.adapter.Valid() && !Shared(s) && CanHappen(s, step) && IsDriver(step)
    ensures Shared(After(s, step)) <==> SharesBy(s, step)
  {
    StartSharesExactlyIf(s, AfterDriver(s, step), Restarts(s, step));
  }

  /** One count of `b` is taken down in `s`, in which nothing but `b` may be shared already. */
  lemma ReturnSharesExactlyIf(s: System, b: Buffer, frameType: FrameType)
    requires s.adapter.Valid() && OnPreviewBuffer(frameType) && b in s.adapter.preview && !b.Null?
    requires if frameType.VideoFrameSync? then b in s.adapter.video && s.adapter.video[b] > 0
             else s.adapter.preview[b] > 0
    requires !Shared(s)
    ensures Shared(Return(s, b, frameType)) <==> s.previewing && s.adapter.Combined(b) == 1 && s.WithVideoClient(b)
  {
    var r := Return(s, b, frameType);
    ReturnSettles(s, b, frameType);
    if s.previewing && s.adapter.Combined(b) == 1 && s.WithVideoClient(b) {
      assert b in r.driver && r.WithVideoClient(b);
    }
    if other :| other in r.driver && r.WithVideoClient(other) {
      assert other == b;
    }
  }

  /** A preview return, seen from the state before its client gave the buffer up. */
  lemma PreviewReturnSharesExactlyIf(s: System, t: System, b: Buffer, frameType: FrameType)
    requires HoldersKnown(s) && !Shared(s) && IsPreviewType(frameType) && b in s.adapter.preview && s.adapter.preview[b] > 0
    requires t == s.(sending := t.sending, clients := t.clients, display := t.display)
    ensures Shared(Return(t, b, frameType)) <==> s.previewing && SharedByPreviewReturn(s, b)
  {
    UncountedReturnSharesNothing(s, t);
    ReturnSharesExactlyIf(t, b, frameType);
  }

  lemma PreviewDoneSharesExactlyIf(s: System, b: Buffer, frameType: FrameType, called: bool)
    requires HoldersKnown(s) && !Shared(s) && CanHappen(s, PreviewDone(b, frameType, called))
    ensures Shared(PreviewClientDone(s, b, frameType, called)) <==> s.previewing && SharedByPreviewReturn(s, b)
  {
    if called {
      PreviewReturnSharesExactlyIf(s, s.(clients := s.clients - multiset{b}), b, frameType);
    } else {
      PreviewReturnSharesExactlyIf(s, s.(sending := s.sending - multiset{b}), b, frameType);
    }
  }

  lemma DisplayTurnSharesExactlyIf(s: System, outcome: D.Dequeue)
    requires HoldersKnown(s) && !Shared(s) && CanHappen(s, DisplayTurn(outcome))
    ensures Shared(TurnDisplay(s, outcome)) <==> SharesByReturn(s, DisplayTurn(outcome))
  {
    var t := s.(display := D.ServeQueue(s.display, outcome));
    if D.HandedBack(s.display, outcome).Some? {
      PreviewReturnSharesExactlyIf(s, t, outcome.b, PreviewFrameSync);
    } else {
      UncountedReturnSharesNothing(s, t);
    }
  }

  /** The same for a video return; its client has the buffer no longer. */
  lemma VideoReturnSharesExactlyIf(s: System, t: System, b: Buffer)
    requires HoldersKnown(s) && !Shared(s) && b in s.adapter.video && s.adapter.video[b] > 0
    requires t.adapter == s.adapter && t.driver == s.driver && t.previewing == s.previewing
    requires forall o :: t.WithVideoClient(o) ==> s.WithVideoClient(o)
    requires t.WithVideoClient(b) <==> s.sendingVideo[b] + s.recorder[b] + s.late[b] >= 2
    ensures Shared(Return(t, b, VideoFrameSync)) <==> s.previewing && SharedByVideoReturn(s, b)
  {
    assert !Shared(t) by {
      if o :| o in t.driver && t.WithVideoClient(o) {
        assert s.WithVideoClient(o);
      }
    }
    ReturnSharesExactlyIf(t, b, VideoFrameSync);
  }

  lemma VideoDoneSharesExactlyIf(s: System, b: Buffer, called: bool)
    requires HoldersKnown(s) && !Shared(s) && CanHappen(s, VideoDone(b, called))
    ensures Shared(VideoClientDone(s, b, called)) <==> s.previewing && SharedByVideoReturn(s, b)
  {
    if s.adapter.video[b] <= 0 {
      UncountedReturnSharesNothing(s, VideoClientDone(s, b, called));
    } else if called {
      CountedReturnSharesExactlyIf(s, s.(recorder := s.recorder - multiset{b}), b);
    } else {
      CountedReturnSharesExactlyIf(s, s.(sendingVideo := s.sendingVideo - multiset{b}), b);
    }
  }

  lemma CountedReturnSharesExactlyIf(s: System, t: System, b: Buffer)
    requires HoldersKnown(s) && !Shared(s) && b in s.adapter.video && s.adapter.video[b] > 0
    requires t == s.(sendingVideo := t.sendingVideo, recorder := t.recorder)
    requires (b in s.recorder && t.recorder == s.recorder - multiset{b} && t.sendingVideo == s.sendingVideo)
          || (b in s.sendingVideo && t.sendingVideo == s.sendingVideo - multiset{b} && t.recorder == s.recorder)
    ensures Shared(Return(t, b, VideoFrameSync)) <==> s.previewing && SharedByVideoReturn(s, b)
  {
    assert t.sendingVideo[b] + t.recorder[b] + 1 == s.sendingVideo[b] + s.recorder[b];
    VideoReturnSharesExactlyIf(s, t, b);
  }

  lemma UncountedReturnSharesNothing(s: System, r: System)
    requires !Shared(s) && r.driver == s.driver && forall o :: r.WithVideoClient(o) ==> s.WithVideoClient(o)
    ensures !Shared(r)
  {
    forall o | o in r.driver ensures !r.WithVideoClient(o) {
      assert !s.WithVideoClient(o);
    }
  }

  lemma LateReturnSharesExactlyIf(s: System, b: Buffer)
    requires HoldersKnown(s) && !Shared(s) && CanHappen(s, LateVideoReturn(b))
    ensures Shared(ReturnLate(s, b)) <==> s.previewing && SharedByVideoReturn(s, b)
  {
    if RefCount(s.adapter, b, VideoFrameSync) > 0 {
      VideoReturnSharesExactlyIf(s, s.(late := s.late - multiset{b}, uncounted := s.uncounted + multiset{b}), b);
    } else {
      UncountedReturnSharesNothing(s, ReturnLate(s, b));
    }
  }

  lemma ReturnStepSharesExactlyIf(s: System, step: Step)
    requires HoldersKnown(s) && !Shared(s) && CanHappen(s, step) && IsReturn(step)
    ensures Shared(AfterReturn(s, step)) <==> SharesByReturn(s, step)
  {
    if step.PreviewDone? {
      PreviewDoneSharesExactlyIf(s, step.b, step.frameType, step.called);
    } else if step.DisplayTurn? {
      DisplayTurnSharesExactlyIf(s, step.outcome);
    } else if step.VideoDone? {
      VideoDoneSharesExactlyIf(s, step.b, step.called);
    } else if step.LateVideoReturn? {
      LateReturnSharesExactlyIf(s, step.b);
    } else {
      SurplusReturnChangesNothing(s, step.b, step.frameType);
    }
  }

  /** Frames on their way and new sessions share nothing: a completed frame's buffer leaves the driver. */
  lemma OtherStepSharesNothing(s: System, step: Step)
    requires HoldersKnown(s) && !Shared(s) && CanHappen(s, step)
    requires !step.Issue? && !IsReturn(step) && !IsDriver(step)
    ensures !Shared(After(s, step))
  {
    if step.DriverCompletes? {
      FrameSharesNothing(s, step.b, step.previewClients, step.videoClients, step.queueEmpty);
    } else if IsCall(step) {
      CallSharesNothing(s, step);
    } else {
      UncountedReturnSharesNothing(s, After(s, step));
    }
  }

  lemma CallSharesNothing(s: System, step: Step)
    requires !Shared(s) && CanHappen(s, step) && IsCall(step)
    ensures !Shared(AfterCall(s, step))
  {
    UncountedReturnSharesNothing(s, AfterCall(s, step));
  }

  lemma FrameSharesNothing(s: System, b: Buffer, previewClients: nat, videoClients: nat, queueEmpty: bool)
    requires !Shared(s)
    ensures !Shared(CompleteFrame(s, b, previewClients, videoClients, queueEmpty))
  {
    var r := CompleteFrame(s, b, previewClients, videoClients, queueEmpty);
    forall o | o in r.driver ensures !r.WithVideoClient(o) {
      assert o in s.driver && !s.WithVideoClient(o);
    }
  }

  /** As long as the driver shares nothing, a step makes it share a buffer with a video client exactly in these cases. */
  lemma StepSharesExactlyIf(s: System, step: Step)
    requires s.Sound() && !Shared(s) && CanHappen(s, step)
    ensures Shared(After(s, step)) <==> SharesBy(s, step)
  {
    HoldersAreKnown(s);
    KnownStepSharesExactlyIf(s, step);
  }

  lemma KnownStepSharesExactlyIf(s: System, step: Step)
    requires HoldersKnown(s) && !Shared(s) && CanHappen(s, step)
    ensures Shared(After(s, step)) <==> SharesBy(s, step)
  {
    if step.Issue? {
      CommandSharesExactlyIf(s, step.op, step.args);
    } else if IsDriver(step) {
      RestartSharesExactlyIf(s, step);
    } else {
      FrameStepSharesExactlyIf(s, step);
    }
  }

  lemma FrameStepSharesExactlyIf(s: System, step: Step)
    requires HoldersKnown(s) && !Shared(s) && CanHappen(s, step) && !step.Issue? && !IsDriver(step)
    ensures Shared(After(s, step)) <==> SharesByReturn(s, step)
  {
    if IsReturn(step) {
      ReturnStepSharesExactlyIf(s, step);
    } else {
      OtherStepSharesNothing(s, step);
    }
  }

  /** No step of the run is one of these. */
  ghost predicate NeverShares(s: System, steps: seq<Step>)
    decreases |steps|
  {
    steps == [] ||
    var earlier, last := steps[..|steps| - 1], steps[|steps| - 1];
    NeverShares(s, earlier) && (Run(s, steps).Some? ==> !SharesBy(Run(s, earlier).value, last))
  }

  /** The driver shares nothing at any moment of the run. */
  ghost predicate NeverShared(s: System, steps: seq<Step>)
    decreases |steps|
  {
    && (Run(s, steps).Some? ==> !Shared(Run(s, steps).value))
    && (steps != [] ==> NeverShared(s, steps[..|steps| - 1]))
  }

  /** Exactly the runs without such a step share nothing at any moment. */
  lemma {:induction false} RunsShareExactlyIf(s: System, steps: seq<Step>)
    requires s.Sound() && !Shared(s)
    ensures NeverShared(s, steps) <==> NeverShares(s, steps)
    decreases |steps|
  {
    if steps != [] {
      var earlier, last := steps[..|steps| - 1], steps[|steps| - 1];
      RunsShareExactlyIf(s, earlier);
      if NeverShared(s, earlier) && Run(s, steps).Some? {
        StepSharesExactlyIf(Run(s, earlier).value, last);
      }
    }
  }

  // --- Patient runs ---

  /** Every video client has a count, and no frame of a stopped recording is still out. */
  ghost predicate Settled(s: System) {
    s.late == multiset{} && s.uncounted == multiset{} && !Shared(s)
  }

  /** A recording is stopped, and the driver restarted, only when the video clients have returned every frame. */
  predicate Patient(s: System, step: Step) {
    (step.Issue? && StopsRecording(s, step.op)) || Restarts(s, step)
    ==> s.sendingVideo == multiset{} && s.recorder == multiset{}
  }

  /** Then a buffer's video clients are no more than its video count. */
  lemma SettledClientsAreCounted(s: System, b: Buffer)
    requires VideoAccounted(s.adapter.video, s.sendingVideo, s.recorder, s.stuckVideo, s.uncounted, None) && Settled(s)
    ensures s.sendingVideo[b] + s.recorder[b] + s.late[b] <= if b in s.adapter.video then s.adapter.video[b] else 0
  {
    if b !in s.adapter.video {
      assert b !in s.sendingVideo && b !in s.recorder;
    }
  }

  lemma PatientStepSharesNothing(s: System, step: Step)
    requires VideoAccounted(s.adapter.video, s.sendingVideo, s.recorder, s.stuckVideo, s.uncounted, None)
    requires s.adapter.Valid() && Settled(s) && Patient(s, step)
    ensures !SharesBy(s, step)
  {
    if step.Issue? {
      PatientCommandSharesNothing(s, step.op, step.args);
    } else if step.DisplayTurn? && D.HandedBack(s.display, step.outcome).Some? {
      SettledClientsAreCounted(s, step.outcome.b);
    } else if step.PreviewDone? || step.VideoDone? || step.LateVideoReturn? {
      SettledClientsAreCounted(s, step.b);
    }
  }

  lemma PatientCommandSharesNothing(s: System, op: AdapterStates.Command, args: Arguments)
    requires VideoAccounted(s.adapter.video, s.sendingVideo, s.recorder, s.stuckVideo, s.uncounted, None)
    requires s.adapter.Valid() && Settled(s) && Patient(s, Issue(op, args))
    ensures !SharesBy(s, Issue(op, args))
  {
    if StartsDriver(s, op, args) {
      assert s.adapter.video == map[];
    }
    forall b | StopsRecording(s, op) || StartsDriver(s, op, args) ensures !s.WithVideoClient(b) {
      SettledClientsAreCounted(s, b);
    }
  }

  lemma PatientVideoReturnKeepsCounts(s: System, b: Buffer, called: bool)
    requires s.adapter.Valid() && b in s.adapter.video && s.late == multiset{} && s.uncounted == multiset{}
    ensures var r := VideoClientDone(s, b, called); r.late == multiset{} && r.uncounted == multiset{}
  {
  }

  lemma PatientReturnKeepsCounts(s: System, step: Step)
    requires s.adapter.Valid() && CanHappen(s, step) && IsReturn(step)
    requires s.late == multiset{} && s.uncounted == multiset{}
    ensures AfterReturn(s, step).late == multiset{} && AfterReturn(s, step).uncounted == multiset{}
  {
    if step.VideoDone? {
      PatientVideoReturnKeepsCounts(s, step.b, step.called);
    }
  }

  lemma PatientFrameKeepsCounts(s: System, b: Buffer, previewClients: nat, videoClients: nat, queueEmpty: bool)
    requires Settled(s) && b in s.driver
    ensures var r := CompleteFrame(s, b, previewClients, videoClients, queueEmpty);
            r.late == multiset{} && r.uncounted == multiset{}
  {
    var none: multiset<Buffer> := multiset{};
    assert !s.WithVideoClient(b);
    assert none[b := 0] == none;
  }

  lemma PatientCommandKeepsCounts(s: System, op: AdapterStates.Command, args: Arguments)
    requires s.adapter.Valid() && MayIssue(s, op, args) && Patient(s, Issue(op, args))
    requires s.late == multiset{} && s.uncounted == multiset{}
    ensures Issued(s, op, args).late == multiset{} && Issued(s, op, args).uncounted == multiset{}
  {
    if StopsRecording(s, op) {
      StopVideoWritesOff(s, args);
    } else {
      OtherCommandMovesNoFrames(s, op, args);
    }
  }

  lemma PatientStepKeepsCounts(s: System, step: Step)
    requires s.adapter.Valid() && Settled(s) && CanHappen(s, step) && Patient(s, step)
    ensures After(s, step).late == multiset{} && After(s, step).uncounted == multiset{}
  {
    if IsReturn(step) {
      PatientReturnKeepsCounts(s, step);
    } else if step.Issue? {
      PatientCommandKeepsCounts(s, step.op, step.args);
    } else if step.DriverCompletes? {
      PatientFrameKeepsCounts(s, step.b, step.previewClients, step.videoClients, step.queueEmpty);
    }
  }

  lemma PatientStepKeepsSettled(s: System, step: Step)
    requires s.Sound() && Settled(s) && CanHappen(s, step) && Patient(s, step)
    ensures Settled(After(s, step))
  {
    PatientStepSharesNothing(s, step);
    StepSharesExactlyIf(s, step);
    PatientStepKeepsCounts(s, step);
  }

  ghost predicate AllPatient(s: System, steps: seq<Step>)
    decreases |steps|
  {
    steps == [] ||
    var earlier, last := steps[..|steps| - 1], steps[|steps| - 1];
    AllPatient(s, earlier) && (Run(s, earlier).Some? ==> Patient(Run(s, earlier).value, last))
  }

  lemma {:induction false} PatientRunsStaySettled(s: System, steps: seq<Step>)
    requires s.Sound() && Settled(s)
    ensures Run(s, steps).Some? && AllPatient(s, steps) ==> Settled(Run(s, steps).value)
    decreases |steps|
  {
    if steps != [] && Run(s, steps).Some? && AllPatient(s, steps) {
      var earlier, last := steps[..|steps| - 1], steps[|steps| - 1];
      PatientRunsStaySettled(s, earlier);
      PatientStepKeepsSettled(Run(s, earlier).value, last);
    }
  }

  lemma SettledDriverSharesNothing(s: System, b: Buffer)
    requires s.Sound() && Settled(s)
    ensures b in s.driver ==>
              && s.PreviewHolders(b) == 0 && s.VideoHolders(b) == 0 && !s.WithVideoClient(b)
              && (s.WithWindow(b) <==> b in s.display.cancelled)
  {
    DriverHoldsFreeBuffers(s, b);
  }

  /** If no recording is stopped and no preview restarted while a video client has a frame, then after any run the
      driver shares nothing with any client, nor with the window but for what the display has given back. */
  lemma PatientRunsShareNothing(s: System, steps: seq<Step>, b: Buffer)
    requires s.Sound() && Settled(s)
    ensures Run(s, steps).Some? && AllPatient(s, steps) && b in Run(s, steps).value.driver ==>
              var r := Run(s, steps).value;
              && r.PreviewHolders(b) == 0 && r.VideoHolders(b) == 0 && !r.WithVideoClient(b)
              && (r.WithWindow(b) <==> b in r.display.cancelled)
  {
    PatientRunsStaySettled(s, steps);
    if Run(s, steps).Some? && AllPatient(s, steps) && b in Run(s, steps).value.driver {
      SettledDriverSharesNothing(Run(s, steps).value, b);
    }
  }
}
