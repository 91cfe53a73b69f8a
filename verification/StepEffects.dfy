/**
 What the steps of BufferSystem do, buffer by buffer: which counts they take down or set, what the driver has after them,
 and whose hands a frame passes into.
 */
module StepEffects {
  import opened Wrappers
  import opened AdapterStates
  import opened CameraAdapterModel
  import opened AdapterEffects
  import opened BufferSystem
  import D = DisplayModel

  // --- What can happen ---

  /** In every state of a run whoever has a preview frame can let go of it, and the driver can complete any frame it has. */
  lemma PreviewHoldersCanMove(s: System, b: Buffer, t: FrameType)
    requires HoldersKnown(s) && (t.PreviewFrameSync? || t.SnapshotFrame?)
    ensures b in s.sending ==> CanHappen(s, CallClient(b)) && CanHappen(s, PreviewDone(b, t, false))
    ensures b in s.sending && b in s.display.camera ==> forall accepted :: CanHappen(s, CallDisplay(b, accepted))
    ensures b in s.clients ==> CanHappen(s, PreviewDone(b, t, true))
    ensures b in s.driver ==> forall m, n, empty :: CanHappen(s, DriverCompletes(b, m, n, empty))
  {
  }

  /** So can whoever has a video frame, of an earlier recording, too, if its buffer is still one of the adapter's. */
  lemma VideoHoldersCanMove(s: System, b: Buffer)
    requires HoldersKnown(s)
    ensures b in s.sendingVideo ==> CanHappen(s, CallRecorder(b)) && CanHappen(s, VideoDone(b, false))
    ensures b in s.recorder ==> CanHappen(s, VideoDone(b, true))
    ensures b in s.late && (b in s.adapter.preview || !s.adapter.recording) ==> CanHappen(s, LateVideoReturn(b))
  {
    if b in s.late && s.adapter.recording && b in s.adapter.preview {
      assert b in s.adapter.video.Keys;
    }
  }

  /** The window can refuse, and it can give out whatever it has. */
  lemma WindowCanMove(s: System, b: Buffer)
    requires HoldersKnown(s)
    ensures CanHappen(s, DisplayTurn(D.Refused))
    ensures b in s.display.window ==> CanHappen(s, DisplayTurn(D.Dequeued(b))) && CanHappen(s, DisplayTurn(D.Unlockable(b)))
  {
  }

  /** The driver, the picture threads, the auto-focus thread and the messages that stop the display are not held up. */
  lemma ThreadsCanMove(s: System, ok: bool)
    ensures CanHappen(s, DeviceFails) && CanHappen(s, AutoFocusFinishes)
    ensures s.previewing ==> CanHappen(s, SensorResets(ok))
    ensures s.pictures > 0 ==> CanHappen(s, PictureEnds(ok))
    ensures CanHappen(s, DisplayMessage(D.DisplayStopped)) && CanHappen(s, DisplayMessage(D.DisplayExited))
    ensures s.display.state == D.DisplayStopped ==> CanHappen(s, GivesBack(s.display.camera, true)) && CanHappen(s, GivesBack({}, ok))
  {
  }

  /** A command can be issued at any time if its hook answers as the state of the driver makes it; the other commands' hooks
      answer as they like. */
  lemma CommandsCanBeIssued(s: System, op: AdapterStates.Command, args: Arguments)
    requires s.adapter.Valid() && !op.UseBuffersPreview?
    requires op.StartPreview? && args.hook.NoError? ==> !s.previewing && !s.refusing
    requires op.StopPreview? && args.hook.NoError? ==> s.previewing || s.refusing
    requires op.UseBuffersImageCapture? && args.hook.NoError? ==> args.descriptor.None? || !args.descriptor.value.missing
    ensures CanHappen(s, Issue(op, args))
  {
  }

  // --- Commands ---

  predicate ClearsDriver(s: System, op: AdapterStates.Command, args: Arguments) {
    || (op.StopPreview? && Accepts(s.adapter.state, StopPreview))
    || (op.UseBuffersImageCapture? && args.descriptor.Some? && !args.descriptor.value.missing)
  }

  /** The driver streams once an accepted START_PREVIEW has succeeded, and until an accepted STOP_PREVIEW or a USE_BUFFERS_IMAGE_CAPTURE
      with buffers, accepted or not. Every accepted START_IMAGE_CAPTURE that succeeds has its picture thread. */
  lemma CommandStartsAndStopsDriver(s: System, op: AdapterStates.Command, args: Arguments)
    requires s.adapter.Valid() && MayIssue(s, op, args)
    ensures var r := After(s, Issue(op, args));
            && (r.previewing <==> (op.StartPreview? && Accepts(s.adapter.state, op) && args.hook.NoError?)
                                  || (s.previewing && !ClearsDriver(s, op, args)))
            && (r.refusing <==> s.refusing && !ClearsDriver(s, op, args))
            && r.pictures == s.pictures
                 + if op.StartImageCapture? && Accepts(s.adapter.state, op) && args.hook.NoError? then 1 else 0
  {
    AcceptedExactlyIfAllowed(s.adapter.state, op);
    IssueStep(s, op, args);
  }

  predicate EndsRecording(s: System, op: AdapterStates.Command) {
    op.StopVideo? && Accepts(s.adapter.state, StopVideo)
  }

  /** A driver that starts has the buffers without a preview count, and one that goes on keeps its own; when a recording
      stops, it also has those whose only count is a single video count. */
  lemma CommandMovesBuffers(s: System, op: AdapterStates.Command, args: Arguments, b: Buffer)
    requires HoldersKnown(s) && MayIssue(s, op, args)
    ensures var r := After(s, Issue(op, args));
            b in r.driver <==>
              r.previewing && if !s.previewing then b in s.adapter.preview && s.adapter.preview[b] == 0
                              else b in s.driver || (EndsRecording(s, op) && b in s.adapter.video
                                                     && s.adapter.video[b] == 1 && s.adapter.preview[b] == 0)
  {
    AcceptedExactlyIfAllowed(s.adapter.state, op);
    IssueStep(s, op, args);
    if StopsRecording(s, op) {
      StopMovesBuffers(s, args, b);
    } else {
      OtherCommandMovesNoFrames(s, op, args);
    }
  }

  lemma StopMovesBuffers(s: System, args: Arguments, b: Buffer)
    requires HoldersKnown(s) && StopsRecording(s, StopVideo)
    ensures var r := Issued(s, StopVideo, args);
            && r.previewing == s.previewing
            && (b in r.driver <==> s.previewing && (b in s.driver || (b in s.adapter.video && s.adapter.video[b] == 1
                                                                      && s.adapter.preview[b] == 0)))
  {
    StopVideoWritesOff(s, args);
    assert b in s.adapter.video ==> b in s.adapter.video.Keys;
  }

  /** Stopping a recording writes its frames off; their clients may return them later. No other command touches a client. */
  lemma CommandKeepsClients(s: System, op: AdapterStates.Command, args: Arguments)
    requires s.Valid() && MayIssue(s, op, args)
    ensures var r := After(s, Issue(op, args));
            && r.display == s.display && r.sending == s.sending && r.clients == s.clients && r.stuck == s.stuck
            && (EndsRecording(s, op) ==>
                  && r.late == s.late + s.sendingVideo + s.recorder
                  && r.sendingVideo == r.recorder == r.uncounted == multiset{})
            && (!EndsRecording(s, op) ==>
                  && r.late == s.late && r.sendingVideo == s.sendingVideo && r.recorder == s.recorder
                  && r.uncounted == s.uncounted)
  {
    AcceptedExactlyIfAllowed(s.adapter.state, op);
    IssueStep(s, op, args);
    if StopsRecording(s, op) {
      StopVideoWritesOff(s, args);
    } else {
      OtherCommandMovesNoFrames(s, op, args);
    }
  }

  // --- The driver's own steps ---

  /** Whatever the driver does by itself, it changes no count and no client. */
  lemma DriverMovesBuffers(s: System, step: Step, b: Buffer)
    requires s.adapter.Valid() && CanHappen(s, step) && (step.PictureEnds? || step.SensorResets? || step.DeviceFails?)
    ensures var r := After(s, step);
            var free := b in s.adapter.preview && s.adapter.preview[b] == 0;
            && r == s.(previewing := r.previewing, refusing := r.refusing, pictures := r.pictures, driver := r.driver)
            && (step.DeviceFails? ==> !r.previewing && !r.refusing && b !in r.driver && r.pictures == s.pictures)
            && (step.SensorResets? ==> r.previewing && (b in r.driver <==> step.ok && free) && r.pictures == s.pictures)
            && (step.PictureEnds? ==>
                  && r.pictures == s.pictures - 1
                  && (!step.taken || s.refusing ==> r.previewing == s.previewing && r.driver == s.driver)
                  && (step.taken && !s.refusing ==> r.previewing == !s.previewing == !r.refusing)
                  && (step.taken && !s.refusing ==> (b in r.driver <==> r.previewing && free)))
  {
  }

  // --- Frames ---

  /** A completed frame leaves the driver, with a count for each subscriber: for clients about to be called, if the frame can be sent
      and has a preview client, and otherwise for nobody. */
  lemma FrameIsHandedOut(s: System, b: Buffer, previewClients: nat, videoClients: nat, queueEmpty: bool)
    requires s.adapter.Valid() && b in s.adapter.preview
    ensures var r := CompleteFrame(s, b, previewClients, videoClients, queueEmpty);
            var sent := !queueEmpty && previewClients > 0;
            && r.adapter.preview == s.adapter.preview[b := previewClients] && r.driver == s.driver - {b}
            && r.sending[b] == s.sending[b] + (if sent then previewClients else 0)
            && r.stuck[b] == s.stuck[b] + (if sent then 0 else previewClients)
  {
  }

  /** Those who have frames keep them. */
  lemma FrameLeavesHolders(s: System, b: Buffer, previewClients: nat, videoClients: nat, queueEmpty: bool)
    ensures var r := CompleteFrame(s, b, previewClients, videoClients, queueEmpty);
            && r.clients == s.clients && r.recorder == s.recorder && r.late == s.late && r.display == s.display
            && r.previewing == s.previewing && r.pictures == s.pictures
  {
  }

  /** While recording, the same for the video clients; the ones that still had the buffer have no count any more. */
  lemma RecordedFrameIsHandedOut(s: System, b: Buffer, previewClients: nat, videoClients: nat, queueEmpty: bool)
    requires s.adapter.Valid() && b in s.adapter.preview
    ensures var r := CompleteFrame(s, b, previewClients, videoClients, queueEmpty);
            var sent := !queueEmpty && previewClients > 0;
            if s.adapter.recording then
              && r.adapter.video == s.adapter.video[b := videoClients]
              && r.sendingVideo[b] == s.sendingVideo[b] + (if sent then videoClients else 0)
              && r.stuckVideo[b] == (if sent then 0 else videoClients)
              && r.uncounted[b] == s.sendingVideo[b] + s.recorder[b]
            else r.adapter.video == s.adapter.video && r.sendingVideo == s.sendingVideo && r.stuckVideo == s.stuckVideo
                 && r.uncounted == s.uncounted
  {
  }

  // --- Returns ---

  /** One preview count goes, and with the last count of all the buffer goes to the driver. */
  ghost predicate TakesPreviewCount(s: System, r: System, b: Buffer)
    requires b in s.adapter.preview
  {
    && r.adapter.preview == s.adapter.preview[b := s.adapter.preview[b] - 1] && r.adapter.video == s.adapter.video
    && r.driver == s.driver + (if s.previewing && s.adapter.preview[b] == 1 && (b in s.adapter.video ==> s.adapter.video[b] == 0)
                               then {b} else {})
  }

  /** One video count likewise. */
  ghost predicate TakesVideoCount(s: System, r: System, b: Buffer)
    requires b in s.adapter.preview && b in s.adapter.video
  {
    && r.adapter.video == s.adapter.video[b := s.adapter.video[b] - 1] && r.adapter.preview == s.adapter.preview
    && r.driver == s.driver + (if s.previewing && s.adapter.video[b] == 1 && s.adapter.preview[b] == 0 then {b} else {})
  }

  lemma ReturnTakesPreviewCount(s: System, b: Buffer, frameType: FrameType)
    requires s.adapter.Valid() && IsPreviewType(frameType) && !b.Null?
    requires b in s.adapter.preview && s.adapter.preview[b] > 0
    ensures TakesPreviewCount(s, Return(s, b, frameType), b)
  {
    PreviewReturn(s.adapter, b, frameType);
    FillIsGrowth(s.adapter, b);
  }

  lemma ReturnTakesVideoCount(s: System, b: Buffer)
    requires s.adapter.Valid() && !b.Null?
    requires b in s.adapter.preview && b in s.adapter.video && s.adapter.video[b] > 0
    ensures TakesVideoCount(s, Return(s, b, VideoFrameSync), b)
  {
    VideoReturn(s.adapter, b);
    FillIsGrowth(s.adapter, b);
  }

  lemma FillIsGrowth(a: Adapter, b: Buffer)
    ensures a.fills + multiset{b} != a.fills
  {
    assert (a.fills + multiset{b})[b] == a.fills[b] + 1;
  }

  /** The client gives its frame up, or the dispatcher the one it could not deliver. */
  lemma PreviewClientReturns(s: System, b: Buffer, frameType: FrameType, called: bool)
    requires HoldersKnown(s) && CanHappen(s, PreviewDone(b, frameType, called))
    ensures var r := PreviewClientDone(s, b, frameType, called);
            && TakesPreviewCount(s, r, b)
            && (if called then r.sending == s.sending && r.clients == s.clients - multiset{b}
                else r.sending == s.sending - multiset{b} && r.clients == s.clients)
  {
    if called {
      ReturnTakesPreviewCount(s.(clients := s.clients - multiset{b}), b, frameType);
    } else {
      ReturnTakesPreviewCount(s.(sending := s.sending - multiset{b}), b, frameType);
    }
  }

  /** A video client's return takes down its count, unless a late return or a new frame has used it up. */
  lemma VideoClientReturns(s: System, b: Buffer, called: bool)
    requires HoldersKnown(s) && CanHappen(s, VideoDone(b, called))
    ensures var r := VideoClientDone(s, b, called);
            && (if s.adapter.video[b] > 0 then TakesVideoCount(s, r, b) && r.uncounted == s.uncounted
                else r.adapter == s.adapter && r.driver == s.driver && r.uncounted == s.uncounted - multiset{b})
            && (if called then r.sendingVideo == s.sendingVideo && r.recorder == s.recorder - multiset{b}
                else r.sendingVideo == s.sendingVideo - multiset{b} && r.recorder == s.recorder)
  {
    if s.adapter.video[b] > 0 {
      ReturnTakesVideoCount(if called then s.(recorder := s.recorder - multiset{b})
                            else s.(sendingVideo := s.sendingVideo - multiset{b}), b);
    }
  }

  /** A late return takes down a count of the present recording, if there is one of its buffer. */
  lemma LateReturnTakesCount(s: System, b: Buffer)
    requires s.adapter.Valid() && !b.Null? && Returnable(s.adapter, b, VideoFrameSync)
    ensures var r := ReturnLate(s, b);
            && r.late == s.late - multiset{b} && r.sendingVideo == s.sendingVideo && r.recorder == s.recorder
            && if b in s.adapter.video && s.adapter.video[b] > 0
               then b in s.adapter.preview && TakesVideoCount(s, r, b) && r.uncounted == s.uncounted + multiset{b}
               else r == s.(late := r.late)
  {
    if b in s.adapter.video && s.adapter.video[b] > 0 {
      assert b in s.adapter.video.Keys;
      ReturnTakesVideoCount(s.(late := s.late - multiset{b}, uncounted := s.uncounted + multiset{b}), b);
    }
  }

  /** The display's turn is a preview return exactly if the display runs, has a request, and gets a buffer it can lock. */
  lemma DisplayReturns(s: System, outcome: D.Dequeue)
    requires HoldersKnown(s) && D.Possible(s.display, outcome)
    ensures var r, d := TurnDisplay(s, outcome), s.display;
            if d.pending > 0 && d.state == D.DisplayStarted && outcome.Dequeued?
            then outcome.b in s.adapter.preview && TakesPreviewCount(s, r, outcome.b)
            else r == s.(display := r.display)
  {
    D.TurnByFields(s.display, outcome);
    if D.HandedBack(s.display, outcome).Some? {
      ReturnTakesPreviewCount(s.(display := D.ServeQueue(s.display, outcome)), outcome.b, PreviewFrameSync);
    }
  }

  // --- Calls ---

  /** A call passes a frame on: to the window, which may refuse it, to a preview client, or to a recorder. */
  lemma CallPassesFrame(s: System, step: Step)
    requires s.adapter.Valid() && CanHappen(s, step) && (step.CallDisplay? || step.CallClient? || step.CallRecorder?)
    ensures var r, b, one := After(s, step), step.b, multiset{step.b};
            && (step.CallDisplay? ==>
                  var taken := step.accepted || b in s.display.cancelled;
                  && r == s.(sending := s.sending - one, display := r.display)
                  && r.display.window == s.display.window + (if taken then {b} else {})
                  && r.display.lost == s.display.lost + (if taken then {} else {b})
                  && r.display.camera == s.display.camera - {b} && r.display.pending == s.display.pending + 1)
            && (step.CallClient? ==> r == s.(sending := s.sending - one, clients := s.clients + one))
            && (step.CallRecorder? ==> r == s.(sendingVideo := s.sendingVideo - one, recorder := s.recorder + one))
  {
  }

  /** Disabling the display gives the window buffers that it is not due to give back; nothing else in the system notices. */
  lemma GivingBackTellsNobody(s: System, step: Step)
    requires s.adapter.Valid() && CanHappen(s, step) && step.GivesBack?
    ensures var r := After(s, step);
            && r == s.(display := s.display.(cancelled := r.display.cancelled, camera := r.display.camera, gone := r.display.gone))
            && r.display.cancelled == s.display.cancelled + step.cancels
            && r.display.camera == (if step.emptied then {} else s.display.camera)
            && r.display.camera + r.display.gone == s.display.camera + s.display.gone
  {
  }

  // --- Sessions ---

  /** A new session: the buffers the window insists on have a count of one, the others of zero; and the display has the split. */
  lemma SessionCountsBuffers(s: System, step: Step)
    requires s.Sound() && step.OpenSession? && CanHappen(s, step)
    ensures var r, n := After(s, step), |step.buffers|;
            && (forall b :: b in r.adapter.preview <==> b in step.buffers)
            && (forall i :: 0 <= i < n ==>
                  var b, kept := step.buffers[i], step.undequeued > n || i + step.undequeued < n;
                  b in r.adapter.preview && r.adapter.preview[b] == (if kept then 0 else 1)
                  && (b in r.display.camera <==> kept) && (b in r.display.window <==> !kept))
            && r.previewing == s.previewing && r.driver == s.driver && r.stuck == multiset{}
  {
    var r := After(s, step);
    SessionStep(s, step);
    SessionCounts(s, step.buffers, step.undequeued, step.hook);
    D.AllocateByIndex(s.display, step.buffers, step.undequeued);
    InitialCountsOfDistinct(step.buffers, r.display.Queueable());
    CountsAreOfTheList(step.buffers, r.display.Queueable());
  }
}
