/**
 Whether the driver ever misses a buffer: which steps strand one, and what runs never do.
 */
module BufferStranding {
  import opened Wrappers
  import opened AdapterStates
  import opened CameraAdapterModel
  import opened BufferSystem
  import D = DisplayModel

  /** The steps that strand a buffer: stopping a recording one of whose frames went to several video
      clients, completing a frame that has no preview subscriber or that cannot be sent, and a reset of the
      sensor that fails on the way. */
  ghost predicate Strands(s: System, step: Step) {
    if step.Issue? then StopsRecording(s, step.op) && s.previewing && exists b :: StrandedByStop(s, b)
    else if step.DriverCompletes? then step.previewClients == 0 || step.queueEmpty
    else step.SensorResets? && !step.ok && exists b :: Unowed(s.adapter, b)
  }

  lemma StopVideoEndsRecording(a: Adapter, op: AdapterStates.Command, args: Arguments)
    requires a.Valid() && !(op.UseBuffersPreview? && a.state.Initialized?)
    ensures a.recording && !Execute(a, op, args).0.recording <==> op.StopVideo? && Transition(a.state, op).Some?
  {
    if op.StartVideo? || op.StopVideo? {
      AcceptedVideoCommandSucceeds(a, op, args);
    } else {
      PlainCommandEffect(a, op, args);
    }
  }

  lemma IssueStrandsExactlyIf(s: System, op: AdapterStates.Command, args: Arguments)
    requires s.Valid() && s.Complete() && CanHappen(s, Issue(op, args))
    ensures Issued(s, op, args).Complete() <==> !Strands(s, Issue(op, args))
  {
    CommandKeepsSystemValid(s, op, args);
    StopVideoEndsRecording(s.adapter, op, args);
  }

  /** Returns, frames on their way, new sessions and the auto-focus thread strand nothing. */
  lemma OtherStepStrandsNothing(s: System, step: Step)
    requires s.Valid() && s.Complete() && CanHappen(s, step)
    requires !step.Issue? && !step.DriverCompletes? && !IsDriver(step)
    ensures After(s, step).Complete()
  {
    if IsReturn(step) {
      ReturnStepKeepsValid(s, step);
    } else if step.OpenSession? {
      StartSessionKeepsValid(s, step.buffers, step.undequeued, step.hook);
    } else if IsCall(step) {
      CallLeavesDriverAlone(s, step);
    }
  }

  lemma FrameStrandsExactlyIf(s: System, step: Step)
    requires s.Valid() && s.Complete() && CanHappen(s, step) && step.DriverCompletes?
    ensures After(s, step).Complete() <==> !Strands(s, step)
  {
    FrameIsMissedExactlyIf(s, step.b, step.previewClients, step.videoClients, step.queueEmpty);
  }

  lemma DriverStrandsExactlyIf(s: System, step: Step)
    requires s.Valid() && s.Complete() && CanHappen(s, step) && IsDriver(step)
    ensures After(s, step).Complete() <==> !Strands(s, step)
  {
    DriverStepKeepsDriverFree(s, step);
  }

  /** As long as nothing is stranded, a step strands something exactly in these cases. */
  lemma StepStrandsExactlyIf(s: System, step: Step)
    requires s.Valid() && s.Complete() && CanHappen(s, step)
    ensures After(s, step).Complete() <==> !Strands(s, step)
  {
    if step.Issue? {
      IssueStrandsExactlyIf(s, step.op, step.args);
    } else if step.DriverCompletes? {
      FrameStrandsExactlyIf(s, step);
    } else if IsDriver(step) {
      DriverStrandsExactlyIf(s, step);
    } else {
      OtherStepStrandsNothing(s, step);
    }
  }

  /** No step of the run strands a buffer. */
  ghost predicate NeverStrands(s: System, steps: seq<Step>)
    decreases |steps|
  {
    steps == [] ||
    var earlier, last := steps[..|steps| - 1], steps[|steps| - 1];
    NeverStrands(s, earlier) && (Run(s, earlier).Some? ==> !Strands(Run(s, earlier).value, last))
  }

  /** Along a run without stranding steps the driver misses no buffer that is free. */
  lemma {:induction false} RunsWithoutStrandingAreComplete(s: System, steps: seq<Step>)
    requires s.Sound() && s.Complete()
    ensures Run(s, steps).Some? && NeverStrands(s, steps) ==> Run(s, steps).value.Complete()
    decreases |steps|
  {
    if steps != [] && Run(s, steps).Some? && NeverStrands(s, steps) {
      var earlier, last := steps[..|steps| - 1], steps[|steps| - 1];
      RunsWithoutStrandingAreComplete(s, earlier);
      StepStrandsExactlyIf(Run(s, earlier).value, last);
    }
  }

  /** What completeness means for a buffer: if nobody has it, it is with the driver while that streams. */
  lemma CompleteMeansNoBufferIsMissed(s: System, b: Buffer)
    requires s.Valid() && s.Complete()
    ensures s.previewing && b in s.adapter.preview && s.PreviewHolders(b) == 0 && s.VideoHolders(b) == 0 ==> b in s.driver
  {
    if b in s.adapter.preview && s.PreviewHolders(b) == 0 && s.VideoHolders(b) == 0 {
      assert b !in s.stuck && b !in s.stuckVideo;
      assert Unowed(s.adapter, b);
    }
  }

  // --- One recorder ---

  ghost predicate AtMostOnce(counts: map<Buffer, int>) {
    forall b <- counts :: counts[b] <= 1
  }

  /** A completed frame can be sent, has a preview subscriber, and has no more than one video client; resets succeed. */
  predicate Attended(step: Step) {
    && (step.DriverCompletes? ==> step.previewClients > 0 && !step.queueEmpty && step.videoClients <= 1)
    && (step.SensorResets? ==> step.ok)
  }

  lemma CommandKeepsAtMostOnce(s: System, op: AdapterStates.Command, args: Arguments)
    requires s.adapter.Valid() && MayIssue(s, op, args) && AtMostOnce(s.adapter.video)
    ensures AtMostOnce(Issued(s, op, args).adapter.video)
  {
    CommandEffect(s.adapter, op, args);
  }

  lemma VideoCountsAfterReturn(a: Adapter, b: Buffer, frameType: FrameType)
    requires a.Valid() && Returnable(a, b, frameType)
    ensures var r := ReturnFrame(a, b, frameType);
            r.video == a.video || (b in a.video && r.video == a.video[b := a.video[b] - 1])
  {
    if !b.Null? && RefCount(a, b, frameType) > 0 && frameType.VideoFrameSync? {
      assert WithRefCount(a, b, frameType, a.video[b] - 1).video == a.video[b := a.video[b] - 1];
    }
  }

  lemma ReturnKeepsAtMostOnce(s: System, b: Buffer, frameType: FrameType)
    requires s.adapter.Valid() && Returnable(s.adapter, b, frameType) && AtMostOnce(s.adapter.video)
    ensures AtMostOnce(Return(s, b, frameType).adapter.video)
  {
    VideoCountsAfterReturn(s.adapter, b, frameType);
  }

  lemma PreviewDoneKeepsAtMostOnce(s: System, b: Buffer, frameType: FrameType, called: bool)
    requires s.adapter.Valid() && b in s.adapter.preview && IsPreviewType(frameType) && AtMostOnce(s.adapter.video)
    ensures AtMostOnce(PreviewClientDone(s, b, frameType, called).adapter.video)
  {
    assert PreviewClientDone(s, b, frameType, called).adapter == ReturnFrame(s.adapter, b, frameType);
    VideoCountsAfterReturn(s.adapter, b, frameType);
  }

  lemma VideoDoneKeepsAtMostOnce(s: System, b: Buffer, called: bool)
    requires s.adapter.Valid() && b in s.adapter.video && AtMostOnce(s.adapter.video)
    ensures AtMostOnce(VideoClientDone(s, b, called).adapter.video)
  {
    if called {
      ReturnVideoKeepsAtMostOnce(s.(recorder := s.recorder - multiset{b}), b);
    } else {
      ReturnVideoKeepsAtMostOnce(s.(sendingVideo := s.sendingVideo - multiset{b}), b);
    }
  }

  lemma ReturnVideoKeepsAtMostOnce(s: System, b: Buffer)
    requires s.adapter.Valid() && b in s.adapter.video && AtMostOnce(s.adapter.video)
    ensures AtMostOnce(ReturnVideo(s, b).adapter.video)
  {
    VideoCountsAfterReturn(s.adapter, b, VideoFrameSync);
  }

  lemma LateReturnKeepsAtMostOnce(s: System, b: Buffer)
    requires s.adapter.Valid() && Returnable(s.adapter, b, VideoFrameSync) && AtMostOnce(s.adapter.video)
    ensures AtMostOnce(ReturnLate(s, b).adapter.video)
  {
    VideoCountsAfterReturn(s.adapter, b, VideoFrameSync);
  }

  lemma ReturnStepKeepsAtMostOnce(s: System, step: Step)
    requires s.adapter.Valid() && CanHappen(s, step) && IsReturn(step) && AtMostOnce(s.adapter.video)
    ensures AtMostOnce(AfterReturn(s, step).adapter.video)
  {
    if step.PreviewDone? {
      PreviewDoneKeepsAtMostOnce(s, step.b, step.frameType, step.called);
    } else if step.VideoDone? {
      VideoDoneKeepsAtMostOnce(s, step.b, step.called);
    } else if step.LateVideoReturn? {
      LateReturnKeepsAtMostOnce(s, step.b);
    } else if step.SurplusReturn? {
      SurplusReturnChangesNothing(s, step.b, step.frameType);
    } else {
      DisplayTurnKeepsAtMostOnce(s, step.outcome);
    }
  }

  lemma DisplayTurnKeepsAtMostOnce(s: System, outcome: D.Dequeue)
    requires s.adapter.Valid() && D.Possible(s.display, outcome) && AtMostOnce(s.adapter.video)
    requires forall b <- s.display.window :: b in s.adapter.preview
    ensures AtMostOnce(TurnDisplay(s, outcome).adapter.video)
  {
    if D.HandedBack(s.display, outcome).Some? {
      ReturnKeepsAtMostOnce(s.(display := D.ServeQueue(s.display, outcome)), outcome.b, PreviewFrameSync);
    }
  }

  lemma SessionKeepsAtMostOnce(s: System, buffers: seq<Buffer>, undequeued: nat, hook: Status)
    requires s.adapter.Valid() && AtMostOnce(s.adapter.video)
    ensures AtMostOnce(StartSession(s, buffers, undequeued, hook).adapter.video)
  {
    assert StartSession(s, buffers, undequeued, hook).adapter.video == s.adapter.video;
  }

  lemma FrameKeepsAtMostOnce(s: System, b: Buffer, previewClients: nat, videoClients: nat, queueEmpty: bool)
    requires AtMostOnce(s.adapter.video) && videoClients <= 1
    ensures AtMostOnce(CompleteFrame(s, b, previewClients, videoClients, queueEmpty).adapter.video)
  {
  }

  lemma StepKeepsAtMostOnce(s: System, step: Step)
    requires s.adapter.Valid() && CanHappen(s, step) && Attended(step) && AtMostOnce(s.adapter.video)
    ensures AtMostOnce(After(s, step).adapter.video)
  {
    if IsDriver(step) {
      assert After(s, step).adapter == s.adapter;
    } else if step.Issue? {
      CommandKeepsAtMostOnce(s, step.op, step.args);
    } else if IsReturn(step) {
      ReturnStepKeepsAtMostOnce(s, step);
    } else if IsCall(step) {
      CallLeavesDriverAlone(s, step);
    } else if step.OpenSession? {
      SessionKeepsAtMostOnce(s, step.buffers, step.undequeued, step.hook);
    } else if step.DriverCompletes? {
      FrameKeepsAtMostOnce(s, step.b, step.previewClients, step.videoClients, step.queueEmpty);
    }
  }

  lemma AttendedStepStrandsNothing(s: System, step: Step)
    requires s.Valid() && s.Complete() && CanHappen(s, step) && Attended(step) && AtMostOnce(s.adapter.video)
    ensures After(s, step).Complete()
  {
    StepStrandsExactlyIf(s, step);
    assert !Strands(s, step);
  }

  /** With at most one video client, and a preview subscriber and a full frame queue for every frame, no run ever
      strands a buffer, whatever late returns and pictures there are. */
  lemma {:induction false} OneRecorderStrandsNothing(s: System, steps: seq<Step>)
    requires s.Sound() && s.Complete() && AtMostOnce(s.adapter.video)
    requires forall step :: step in steps ==> Attended(step)
    ensures Run(s, steps).Some? ==> Run(s, steps).value.Complete() && AtMostOnce(Run(s, steps).value.adapter.video)
    decreases |steps|
  {
    if steps != [] && Run(s, steps).Some? {
      var earlier, last := steps[..|steps| - 1], steps[|steps| - 1];
      assert last in steps;
      OneRecorderStrandsNothing(s, earlier);
      StepKeepsAtMostOnce(Run(s, earlier).value, last);
      AttendedStepStrandsNothing(Run(s, earlier).value, last);
    }
  }

  // --- All frames back ---

  /**
   No buffer leaks: once every client has returned its frames and no dispatch is under way, the
   streaming driver has all the buffers that the window is not due to give back, and these are all the
   queueable ones except one per request in the display queue. They are those of the display's map, unless
   the display has been disabled.
   */
  lemma IdleBuffersAreAllWithDriver(s: System)
    requires s.Sound() && s.Complete() && s.previewing && s.display.lost == {}
    requires s.sending == multiset{} && s.clients == multiset{}
    requires s.sendingVideo == multiset{} && s.recorder == multiset{}
    ensures s.driver == s.display.Idle() && (s.display.gone == {} ==> s.driver == s.display.camera)
    ensures |s.driver| + s.display.pending + s.display.dropped == s.display.Queueable() + s.display.stale
  {
    forall b ensures b in s.driver <==> b in s.display.Idle() {
      if b in s.driver {
        assert b in s.adapter.preview && b in s.display.All();
        assert s.PreviewHolders(b) == 0;
      }
      if b in s.display.Idle() {
        assert b in s.display.All();
        CompleteMeansNoBufferIsMissed(s, b);
      }
    }
  }
}
