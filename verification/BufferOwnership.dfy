/**
 What the invariant of BufferSystem is worth for the buffers the driver may be writing to: nobody who is due to return a
 preview frame has one, and a fill hands over a buffer without counts. FilledTwice says when the driver has
 it already; BufferWindow is about buffers the display has given back, BufferSharing about the video clients.
 */
module BufferOwnership {
  import opened Wrappers
  import opened AdapterStates
  import opened CameraAdapterModel
  import opened BufferSystem
  import D = DisplayModel

  lemma StartIsSound()
    ensures START.Sound() && START.Complete()
  {
  }

  ghost function RunFromStart(steps: seq<Step>): (end: Option<System>)
    ensures end.Some? ==> end.value.Sound()
  {
    StartIsSound();
    Run(START, steps)
  }

  // --- The window and the preview clients ---

  /**
   Whatever has happened since the start, pictures, late video returns and a disabled display included: no preview
   client has a buffer the driver may be writing to, no preview dispatch is about to hand it out, and the
   window has it only if the display has given it back without being asked for it.
   */
  lemma DriverNeverSharesWithPreview(steps: seq<Step>, b: Buffer)
    ensures RunFromStart(steps).Some? && b in RunFromStart(steps).value.driver ==>
              var s := RunFromStart(steps).value;
              && s.PreviewHolders(b) == 0 && b !in s.sending && b !in s.clients
              && b in s.display.Idle() && b !in s.display.lost
              && (s.WithWindow(b) <==> b in s.display.cancelled)
  {
    if RunFromStart(steps).Some? && b in RunFromStart(steps).value.driver {
      DriverHoldsFreeBuffers(RunFromStart(steps).value, b);
    }
  }

  /** The driver's buffers are free of preview counts; each video client that has one is counted, or has lost its
      count to a late return or a new frame. */
  lemma DriverHoldsFreeBuffers(s: System, b: Buffer)
    requires s.Sound()
    ensures b in s.driver ==>
              && s.previewing && s.PreviewHolders(b) == 0 && b !in s.sending && b !in s.clients && b !in s.stuck
              && b in s.display.Idle() && b !in s.display.window && b !in s.display.lost
              && s.VideoHolders(b) + s.stuckVideo[b]
                 == s.uncounted[b] + if b in s.adapter.video then s.adapter.video[b] else 0
  {
    if b in s.driver {
      assert b in s.adapter.preview && s.adapter.preview[b] == 0 && b in s.display.All();
      if b !in s.adapter.video {
        assert b !in s.sendingVideo && b !in s.recorder && b !in s.stuckVideo && b !in s.uncounted;
      }
    }
  }

  // --- Returns of an earlier session ---

  /**
   Sessions are assumed to start when every preview frame is back. A preview frame of an earlier session that is
   returned in spite of that takes down the count of whoever has the buffer now: this one keeps it with a count
   too few, and the driver gets the buffer as well exactly if this was the only count.
   */
  lemma ReturnOfEarlierSession(s: System, b: Buffer, frameType: FrameType)
    requires HoldersKnown(s) && IsPreviewType(frameType) && b in s.adapter.preview && s.adapter.preview[b] > 0
    requires PreviewAccounted(s.adapter.preview, s.sending, s.clients, s.display.window, s.display.lost, s.stuck, None)
    ensures var r := Return(s, b, frameType);
            && r.adapter.preview == s.adapter.preview[b := s.adapter.preview[b] - 1]
            && r.adapter.preview[b] + 1 == r.PreviewHolders(b) + r.stuck[b]
            && (b in r.driver <==> s.previewing && s.adapter.Combined(b) == 1)
  {
    ReturnSettles(s, b, frameType);
  }

  // --- Fills ---

  /** One call hands `b` to the driver: no count stands for it any more, and the driver has it if it streams. */
  ghost predicate Filled(s: System, r: System, b: Buffer) {
    && r.adapter.fills[b] == s.adapter.fills[b] + 1
    && Unowed(r.adapter, b)
    && (r.previewing ==> b in r.driver)
  }

  /** The buffer is with the driver although it has a video count, its last, and the step takes that down. */
  predicate FilledTwice(s: System, step: Step, b: Buffer) {
    && b in s.driver && b in s.adapter.video && s.adapter.video[b] == 1
    && (((step.VideoDone? || step.LateVideoReturn?) && step.b == b) || (step.Issue? && StopsRecording(s, step.op)))
  }

  /** A fill is as it should be, except that the driver may have the buffer already. */
  ghost predicate FillsRightly(s: System, r: System, b: Buffer, twice: bool) {
    && (r.adapter.fills[b] != s.adapter.fills[b] ==> Filled(s, r, b))
    && (r.adapter.fills[b] != s.adapter.fills[b] && b in s.driver <==> twice)
  }

  lemma ReturnFillsRightly(s: System, b: Buffer, frameType: FrameType, other: Buffer)
    requires OnPreviewBuffer(frameType) && b in s.adapter.preview && !b.Null?
    requires s.adapter.Valid() && DriverFree(s.adapter, s.previewing, s.driver)
    requires if frameType.VideoFrameSync? then b in s.adapter.video && s.adapter.video[b] > 0
             else s.adapter.preview[b] > 0
    ensures FillsRightly(s, Return(s, b, frameType), other,
                         frameType.VideoFrameSync? && other == b && b in s.driver && s.adapter.video[b] == 1)
  {
    if frameType.VideoFrameSync? {
      VideoReturn(s.adapter, b);
    } else {
      PreviewReturn(s.adapter, b, frameType);
    }
    assert !Unowed(s.adapter, b);
  }

  lemma CommandFillsRightly(s: System, op: AdapterStates.Command, args: Arguments, b: Buffer)
    requires HoldersKnown(s) && MayIssue(s, op, args)
    ensures FillsRightly(s, Issued(s, op, args), b, FilledTwice(s, Issue(op, args), b))
  {
    if StopsRecording(s, op) {
      StopVideoFillsRightly(s, args, b);
    } else {
      OtherCommandMovesNoFrames(s, op, args);
    }
  }

  lemma StopVideoFillsRightly(s: System, args: Arguments, b: Buffer)
    requires HoldersKnown(s) && StopsRecording(s, StopVideo)
    ensures FillsRightly(s, Issued(s, StopVideo, args), b, FilledTwice(s, Issue(StopVideo, args), b))
  {
    StopVideoWritesOff(s, args);
    assert b in Reclaimed(s.adapter) <==> multiset(Reclaimed(s.adapter))[b] == 1;
  }

  lemma PreviewDoneFillsRightly(s: System, b: Buffer, frameType: FrameType, called: bool, other: Buffer)
    requires HoldersKnown(s) && CanHappen(s, PreviewDone(b, frameType, called))
    ensures FillsRightly(s, PreviewClientDone(s, b, frameType, called), other, false)
  {
    if called {
      ReturnFillsRightly(s.(clients := s.clients - multiset{b}), b, frameType, other);
    } else {
      ReturnFillsRightly(s.(sending := s.sending - multiset{b}), b, frameType, other);
    }
  }

  lemma VideoDoneFillsRightly(s: System, b: Buffer, called: bool, other: Buffer)
    requires HoldersKnown(s) && CanHappen(s, VideoDone(b, called))
    ensures FillsRightly(s, VideoClientDone(s, b, called), other, FilledTwice(s, VideoDone(b, called), other))
  {
    if RefCount(s.adapter, b, VideoFrameSync) > 0 {
      if called {
        ReturnFillsRightly(s.(recorder := s.recorder - multiset{b}), b, VideoFrameSync, other);
      } else {
        ReturnFillsRightly(s.(sendingVideo := s.sendingVideo - multiset{b}), b, VideoFrameSync, other);
      }
    }
  }

  lemma LateReturnFillsRightly(s: System, b: Buffer, other: Buffer)
    requires HoldersKnown(s) && CanHappen(s, LateVideoReturn(b))
    ensures FillsRightly(s, ReturnLate(s, b), other, FilledTwice(s, LateVideoReturn(b), other))
  {
    if RefCount(s.adapter, b, VideoFrameSync) > 0 {
      ReturnFillsRightly(s.(late := s.late - multiset{b}, uncounted := s.uncounted + multiset{b}), b, VideoFrameSync, other);
    }
  }

  lemma DisplayTurnFillsRightly(s: System, outcome: D.Dequeue, other: Buffer)
    requires HoldersKnown(s) && D.Possible(s.display, outcome)
    ensures FillsRightly(s, TurnDisplay(s, outcome), other, false)
  {
    if D.HandedBack(s.display, outcome).Some? {
      ReturnFillsRightly(s.(display := D.ServeQueue(s.display, outcome)), outcome.b, PreviewFrameSync, other);
    }
  }

  lemma ReturnStepFillsRightly(s: System, step: Step, b: Buffer)
    requires HoldersKnown(s) && CanHappen(s, step) && IsReturn(step)
    ensures FillsRightly(s, AfterReturn(s, step), b, FilledTwice(s, step, b))
  {
    match step
    case PreviewDone(b', frameType, called) => PreviewDoneFillsRightly(s, b', frameType, called, b);
    case VideoDone(b', called) => VideoDoneFillsRightly(s, b', called, b);
    case LateVideoReturn(b') => LateReturnFillsRightly(s, b', b);
    case SurplusReturn(b', frameType) => SurplusReturnChangesNothing(s, b', frameType);
    case DisplayTurn(outcome) => DisplayTurnFillsRightly(s, outcome, b);
  }

  lemma OtherStepsFillNothing(s: System, step: Step)
    requires s.adapter.Valid() && CanHappen(s, step) && !step.Issue? && !IsReturn(step)
    ensures After(s, step).adapter.fills == s.adapter.fills
  {
    if IsCall(step) {
      CallLeavesDriverAlone(s, step);
    }
  }

  /**
   In every step of every run, each call that hands a buffer to the driver is made when its last count has just
   been taken down; and the driver has the buffer already exactly if it was queued without regard to its
   one video count, and the step takes that count down.
   */
  lemma FillsAreFreshExactlyIf(s: System, step: Step, b: Buffer)
    requires s.Valid() && CanHappen(s, step)
    ensures After(s, step).adapter.fills[b] != s.adapter.fills[b] ==> Filled(s, After(s, step), b)
    ensures After(s, step).adapter.fills[b] != s.adapter.fills[b] && b in s.driver <==> FilledTwice(s, step, b)
  {
    HoldersAreKnown(s);
    StepFillsRightly(s, step, b);
  }

  lemma StepFillsRightly(s: System, step: Step, b: Buffer)
    requires HoldersKnown(s) && CanHappen(s, step)
    ensures FillsRightly(s, After(s, step), b, FilledTwice(s, step, b))
  {
    if step.Issue? {
      CommandFillsRightly(s, step.op, step.args, b);
    } else if IsReturn(step) {
      ReturnStepFillsRightly(s, step, b);
    } else {
      OtherStepsFillNothing(s, step);
    }
  }
}
