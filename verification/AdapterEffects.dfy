/**
 What commands, returns and new frames do to the fields of the camera adapter, field by field and buffer by buffer
 (camera/BaseCameraAdapter.cpp:260-996, 1366-1572).
 */
module AdapterEffects {
  import opened Wrappers
  import opened AdapterStates
  import opened CameraAdapterModel

  // --- Using buffers ---

  lemma {:induction false} CountsAreOfTheList(buffers: seq<Buffer>, maxQueueable: nat)
    ensures forall b :: b in InitialCounts(buffers, maxQueueable) <==> b in buffers
    decreases |buffers|
  {
    if buffers != [] {
      CountsAreOfTheList(buffers[..|buffers| - 1], maxQueueable);
      assert buffers == buffers[..|buffers| - 1] + [buffers[|buffers| - 1]];
    }
  }

  /** The counts are those of exactly the listed buffers; of distinct ones the first `maxQueueable` have count zero, the others one. */
  ghost predicate Counts(counts: map<Buffer, int>, d: Descriptor) {
    && (forall b :: b in counts <==> b in d.buffers)
    && (Distinct(d.buffers) ==> forall i :: 0 <= i < |d.buffers| ==> counts[d.buffers[i]] == if i < d.maxQueueable then 0 else 1)
  }

  /** The same for counts that only say whether a return is due. */
  ghost predicate Marks(counts: map<Buffer, bool>, d: Descriptor) {
    && (forall b :: b in counts <==> b in d.buffers)
    && (Distinct(d.buffers) ==> forall i :: 0 <= i < |d.buffers| ==> (counts[d.buffers[i]] <==> i >= d.maxQueueable))
  }

  lemma InitialCountsCount(d: Descriptor)
    ensures Counts(InitialCounts(d.buffers, d.maxQueueable), d)
    ensures Marks(Flags(InitialCounts(d.buffers, d.maxQueueable)), d)
  {
    CountsAreOfTheList(d.buffers, d.maxQueueable);
    if Distinct(d.buffers) {
      InitialCountsOfDistinct(d.buffers, d.maxQueueable);
    }
  }

  /** A use-buffers command loads its buffers if it is accepted; the state is a separate matter. */
  lemma BuffersAreLoadedIfAccepted(a: Adapter, op: Command, args: Arguments)
    requires a.Valid() && UsesBuffers(op)
    ensures var r := Execute(a, op, args).0;
            r == (if args.descriptor.Some? && Transition(a.state, op).Some? then WithBuffers(a, op, args.descriptor.value)
                  else a).(state := r.state)
  {
    ExecuteByKind(a, op, args);
    if args.descriptor.Some? {
      var d := args.descriptor.value;
      var loaded := if Transition(a.state, op).Some? then WithBuffers(a, op, d) else a;
      var state := if args.hook.NoError? then NextOrSame(a.state, op) else a.state;
      UseBuffersOutcome(a, op, d, args.hook, loaded, loaded.(state := state));
    }
  }

  /** An accepted use-buffers command counts the buffers in the map of its own kind, also if its hook fails then, and leaves
      the other maps alone. */
  lemma AcceptedBuffersAreCounted(a: Adapter, op: Command, args: Arguments)
    requires a.Valid() && Accepts(a.state, op) && args.descriptor.Some?
    ensures var r, d := Execute(a, op, args).0, args.descriptor.value;
            && (op.UseBuffersPreview? ==>
                  Counts(r.preview, d) && r.capture == a.capture && r.data == a.data && r.video == a.video)
            && (op.UseBuffersImageCapture? ==>
                  Marks(r.capture, d) && r.preview == a.preview && r.data == a.data && r.video == a.video)
            && (op.UseBuffersPreviewData? ==>
                  Marks(r.data, d) && r.preview == a.preview && r.capture == a.capture && r.video == a.video)
  {
    AcceptedExactlyIfAllowed(a.state, op);
    if UsesBuffers(op) {
      BuffersAreLoadedIfAccepted(a, op, args);
      InitialCountsCount(args.descriptor.value);
    }
  }

  // --- Commands ---

  /** What every command reports. */
  lemma CommandReports(a: Adapter, op: Command, args: Arguments)
    requires a.Valid()
    ensures var status, hook := Execute(a, op, args).1, args.hook;
            match op
            case UseBuffersPreview | UseBuffersPreviewData | UseBuffersImageCapture =>
              status == if args.descriptor.None? then InvalidArgument else hook
            case QueryResolutionPreview | QueryBufferSizeImageCapture | QueryBufferSizePreviewData =>
              status == if !Accepts(a.state, op) then InvalidOperation else if args.frame then hook else InvalidArgument
            case StartVideo | StopVideo => status == if Accepts(a.state, op) then NoError else InvalidOperation
            case PerformAutofocus =>
              status == if a.state.AutoFocus? then NoError else if Accepts(a.state, op) then hook else InvalidOperation
            case StartFd | StopFd | SwitchToExecuting | DisableMirror => status == hook
            case FocusMoveMsg | SetTimeout | CancelTimeout | TimeoutExpired | Apk => status == NoError
            case StartPreview | StopPreview | StartImageCapture | StopImageCapture | CancelAutofocus | PreviewFlushBuffers
               | StartSmoothZoom | StopSmoothZoom | StartBracketCapture | StopBracketCapture =>
              status == if Accepts(a.state, op) then hook else InvalidOperation
  {
    AcceptedExactlyIfAllowed(a.state, op);
    if UsesBuffers(op) || op.StartVideo? || op.StopVideo? || Unguarded(op) || (op.PerformAutofocus? && a.state.AutoFocus?) {
      ExecuteByKind(a, op, args);
      if op.StartVideo? || op.StopVideo? {
        AcceptedVideoCommandSucceeds(a, op, args);
      }
    } else {
      ExecuteHook(a, op, args);
    }
  }

  /** The state moves exactly if the command is accepted and reports success. */
  lemma StateMovesExactlyIfAccepted(a: Adapter, op: Command, args: Arguments)
    requires a.Valid()
    ensures var (r, status) := Execute(a, op, args);
            r.state == if Accepts(a.state, op) && status.NoError? then NextOrSame(a.state, op) else a.state
  {
    AcceptedExactlyIfAllowed(a.state, op);
    CommandMovesByTheTable(a, op, args);
  }

  /** What the driver gets back when a recording stops: each buffer once whose only count is a single video count. */
  lemma StopVideoFills(a: Adapter, args: Arguments)
    requires a.Valid() && Accepts(a.state, StopVideo)
    ensures var r := Execute(a, StopVideo, args).0;
            && !r.recording && r.video == map[]
            && forall b :: r.fills[b] == a.fills[b]
                 + if b in a.video && !b.Null? && a.video[b] == 1 && a.preview[b] == 0 then 1 else 0
  {
    AcceptedExactlyIfAllowed(a.state, StopVideo);
    AcceptedVideoCommandSucceeds(a, StopVideo, args);
    var r := Execute(a, StopVideo, args).0;
    assert r.fills == a.fills + multiset(Reclaimed(a));
  }

  /** An accepted START_VIDEO starts a count of zero for each preview buffer. */
  lemma StartVideoCounts(a: Adapter, args: Arguments)
    requires a.Valid() && Accepts(a.state, StartVideo)
    ensures var r := Execute(a, StartVideo, args).0;
            && r.recording && r.fills == a.fills
            && (forall b :: b in r.video <==> b in a.preview) && forall b <- r.video :: r.video[b] == 0
  {
    AcceptedExactlyIfAllowed(a.state, StartVideo);
    AcceptedVideoCommandSucceeds(a, StartVideo, args);
  }

  /** Apart from the state, and from what these commands are for, nothing changes. */
  lemma CommandTouchesNothingElse(a: Adapter, op: Command, args: Arguments)
    requires a.Valid()
    ensures var r := Execute(a, op, args).0;
            && r.releases == a.releases && (r.focusMove <==> a.focusMove || op.FocusMoveMsg?)
            && (!(op.UseBuffersPreview? && Accepts(a.state, op)) ==> r.preview == a.preview)
            && (!(op.UseBuffersImageCapture? && Accepts(a.state, op)) ==> r.capture == a.capture)
            && (!(op.UseBuffersPreviewData? && Accepts(a.state, op)) ==> r.data == a.data)
            && (!((op.StartVideo? || op.StopVideo?) && Accepts(a.state, op)) ==>
                  r.recording == a.recording && r.video == a.video && r.fills == a.fills)
  {
    AcceptedExactlyIfAllowed(a.state, op);
    if UsesBuffers(op) {
      BuffersTouchNothingElse(a, op, args);
    } else if !op.StartVideo? && !op.StopVideo? {
      if Unguarded(op) {
        ExecuteByKind(a, op, args);
      } else {
        HookCommandEffect(a, op, args);
        HookKeepsFocusMove(a, op, args);
      }
    }
  }

  lemma HookKeepsFocusMove(a: Adapter, op: Command, args: Arguments)
    requires a.Valid() && !UsesBuffers(op) && !op.StartVideo? && !op.StopVideo? && !Unguarded(op)
    ensures Execute(a, op, args).0.focusMove == a.focusMove
  {
    GuardedHookEffect(a, op, args);
  }

  lemma BuffersTouchNothingElse(a: Adapter, op: Command, args: Arguments)
    requires a.Valid() && UsesBuffers(op)
    ensures var r := Execute(a, op, args).0;
            && r.releases == a.releases && r.focusMove == a.focusMove
            && r.recording == a.recording && r.video == a.video && r.fills == a.fills
            && (!(op.UseBuffersPreview? && Transition(a.state, op).Some?) ==> r.preview == a.preview)
            && (!(op.UseBuffersImageCapture? && Transition(a.state, op).Some?) ==> r.capture == a.capture)
            && (!(op.UseBuffersPreviewData? && Transition(a.state, op).Some?) ==> r.data == a.data)
  {
    BuffersAreLoadedIfAccepted(a, op, args);
  }

  // --- Returns and new frames ---

  /** A picture's or raw frame's return: the mark goes, and the buffer is released if it was there. */
  lemma CaptureReturn(a: Adapter, b: Buffer, frameType: FrameType)
    requires a.Valid() && !b.Null? && b in a.capture && (frameType.ImageFrame? || frameType.RawFrame?)
    ensures ReturnFrame(a, b, frameType)
         == a.(capture := a.capture[b := false], releases := a.releases + if a.capture[b] then multiset{b} else multiset{})
  {
    assert !a.capture[b] ==> a.capture[b := false] == a.capture;
    assert a.releases + multiset{} == a.releases;
  }

  /** A preview-data frame's return likewise. */
  lemma DataReturn(a: Adapter, b: Buffer)
    requires a.Valid() && !b.Null? && b in a.data
    ensures ReturnFrame(a, b, FrameDataSync)
         == a.(data := a.data[b := false], releases := a.releases + if a.data[b] then multiset{b} else multiset{})
  {
    assert !a.data[b] ==> a.data[b := false] == a.data;
    assert a.releases + multiset{} == a.releases;
  }

  /** A preview or snapshot return takes down the preview count, if there is one, and gives the last buffer to the driver. */
  lemma PreviewFrameReturn(a: Adapter, b: Buffer, frameType: FrameType)
    requires a.Valid() && !b.Null? && b in a.preview && (frameType.PreviewFrameSync? || frameType.SnapshotFrame?)
    ensures var last := a.preview[b] == 1 && (b in a.video ==> a.video[b] == 0);
            ReturnFrame(a, b, frameType)
            == if a.preview[b] == 0 then a
               else a.(preview := a.preview[b := a.preview[b] - 1],
                       fills := a.fills + if last then multiset{b} else multiset{})
  {
    assert a.fills + multiset{} == a.fills;
  }

  /** A video return takes down the video count; without a recording it does nothing. */
  lemma VideoFrameReturn(a: Adapter, b: Buffer)
    requires a.Valid() && !b.Null? && Known(a, b, VideoFrameSync)
    ensures ReturnFrame(a, b, VideoFrameSync)
         == if b !in a.video || a.video[b] == 0 then a
            else a.(video := a.video[b := a.video[b] - 1],
                    fills := a.fills + if a.video[b] == 1 && a.preview[b] == 0 then multiset{b} else multiset{})
  {
    assert a.fills + multiset{} == a.fills;
  }

  // --- Several returns ---

  predicate IsCounted(a: Adapter, b: Buffer, frameType: FrameType) {
    Known(a, b, frameType) && RefCount(a, b, frameType) >= 0 && !b.Null?
  }

  function Max(m: int, n: int): int {
    if m <= n then n else m
  }

  /** The buffer if it is given up, and nothing otherwise. */
  function Given(b: Buffer, given: bool): multiset<Buffer> {
    if given then multiset{b} else multiset{}
  }

  /** What other counts stand for a preview buffer. */
  function OtherCounts(a: Adapter, b: Buffer, frameType: FrameType): int
    requires a.Valid() && IsCounted(a, b, frameType) && OnPreviewBuffer(frameType)
  {
    a.Combined(b) - RefCount(a, b, frameType)
  }

  /** `r` is `a` with a count of `c` taken down to `left`, and with the buffer given up if that is the end of it. */
  ghost predicate TakenDown(a: Adapter, b: Buffer, frameType: FrameType, c: int, left: int, r: Adapter)
    requires a.Valid() && IsCounted(a, b, frameType)
  {
    && r.Valid() && IsCounted(r, b, frameType) && RefCount(r, b, frameType) == left
    && var last := c > 0 && left == 0;
       if OnPreviewBuffer(frameType) then
         && r.releases == a.releases && OtherCounts(r, b, frameType) == OtherCounts(a, b, frameType)
         && r.fills == a.fills + Given(b, last && OtherCounts(a, b, frameType) == 0)
       else r.fills == a.fills && r.releases == a.releases + Given(b, last)
  }

  lemma MarkReturnTakesDown(a: Adapter, b: Buffer, frameType: FrameType)
    requires a.Valid() && IsCounted(a, b, frameType) && !OnPreviewBuffer(frameType)
    ensures TakenDown(a, b, frameType, RefCount(a, b, frameType), 0, ReturnFrame(a, b, frameType))
  {
    ReturnFrameKeepsValid(a, b, frameType);
    if frameType.FrameDataSync? {
      DataReturn(a, b);
    } else {
      CaptureReturn(a, b, frameType);
    }
  }

  lemma PreviewReturnTakesDown(a: Adapter, b: Buffer, frameType: FrameType)
    requires a.Valid() && IsCounted(a, b, frameType) && (frameType.PreviewFrameSync? || frameType.SnapshotFrame?)
    ensures var c := RefCount(a, b, frameType); TakenDown(a, b, frameType, c, Max(0, c - 1), ReturnFrame(a, b, frameType))
  {
    ReturnFrameKeepsValid(a, b, frameType);
    PreviewFrameReturn(a, b, frameType);
    assert a.fills + multiset{} == a.fills;
  }

  lemma VideoReturnTakesDown(a: Adapter, b: Buffer)
    requires a.Valid() && IsCounted(a, b, VideoFrameSync)
    ensures var c := RefCount(a, b, VideoFrameSync);
            TakenDown(a, b, VideoFrameSync, c, Max(0, c - 1), ReturnFrame(a, b, VideoFrameSync))
  {
    ReturnFrameKeepsValid(a, b, VideoFrameSync);
    VideoFrameReturn(a, b);
    assert a.fills + multiset{} == a.fills;
  }

  lemma OneReturnTakesOneDown(a: Adapter, b: Buffer, frameType: FrameType)
    requires a.Valid() && IsCounted(a, b, frameType)
    ensures var c := RefCount(a, b, frameType); TakenDown(a, b, frameType, c, Max(0, c - 1), ReturnFrame(a, b, frameType))
  {
    if !OnPreviewBuffer(frameType) {
      MarkReturnTakesDown(a, b, frameType);
    } else if frameType.VideoFrameSync? {
      VideoReturnTakesDown(a, b);
    } else {
      PreviewReturnTakesDown(a, b, frameType);
    }
  }

  /** Taking a count down in two stages gives the buffer up at most once. */
  lemma TakenDownTwice(a: Adapter, b: Buffer, frameType: FrameType, c: int, some: int, r: Adapter, left: int, t: Adapter)
    requires a.Valid() && IsCounted(a, b, frameType) && RefCount(a, b, frameType) == c
    requires TakenDown(a, b, frameType, c, some, r) && TakenDown(r, b, frameType, some, left, t)
    requires 0 <= left <= some <= c
    ensures TakenDown(a, b, frameType, c, left, t)
  {
    var first, then' := c > 0 && some == 0, some > 0 && left == 0;
    if OnPreviewBuffer(frameType) {
      var free := OtherCounts(a, b, frameType) == 0;
      GivenOnce(a.fills, b, first && free, then' && free);
    } else {
      GivenOnce(a.releases, b, first, then');
    }
  }

  lemma GivenOnce(m: multiset<Buffer>, b: Buffer, first: bool, then': bool)
    requires !(first && then')
    ensures m + Given(b, first) + Given(b, then') == m + Given(b, first || then')
  {
  }

  lemma NothingTakenDown(a: Adapter, b: Buffer, frameType: FrameType)
    requires a.Valid() && IsCounted(a, b, frameType)
    ensures TakenDown(a, b, frameType, RefCount(a, b, frameType), RefCount(a, b, frameType), a)
  {
    assert a.fills + multiset{} == a.fills && a.releases + multiset{} == a.releases;
  }

  /** Returns take a count down to zero and no further; the one that gets it there gives the buffer up, to the driver if
      no other count stands for it. */
  lemma {:induction false} ReturnsTakeDownCount(a: Adapter, b: Buffer, frameType: FrameType, times: nat)
    requires a.Valid() && IsCounted(a, b, frameType)
    ensures var c := RefCount(a, b, frameType);
            TakenDown(a, b, frameType, c, Max(0, c - times), ReturnFrames(a, b, frameType, times))
    decreases times
  {
    var c := RefCount(a, b, frameType);
    if times == 0 {
      NothingTakenDown(a, b, frameType);
    } else {
      var r := ReturnFrame(a, b, frameType);
      OneReturnTakesOneDown(a, b, frameType);
      ReturnsTakeDownCount(r, b, frameType, times - 1);
      TakenDownTwice(a, b, frameType, c, Max(0, c - 1), r, Max(0, c - times), ReturnFrames(a, b, frameType, times));
    }
  }

  /** A preview or video frame of one type is counted once for every subscriber of the type's list. */
  lemma FrameIsCountedBySubscribers(a: Adapter, subs: Subscriptions, b: Buffer)
    ensures b in a.preview ==>
              && WithInitialCounts(a, subs, b, {PreviewFrameSync}) == a.(preview := a.preview[b := subs.frame])
              && WithInitialCounts(a, subs, b, {SnapshotFrame}) == a.(preview := a.preview[b := subs.frame])
    ensures b in a.video ==> WithInitialCounts(a, subs, b, {VideoFrameSync}) == a.(video := a.video[b := subs.video])
  {
  }

  /** A frame of the other types that are counted is marked if its list has a subscriber. */
  lemma FrameIsMarkedBySubscribers(a: Adapter, subs: Subscriptions, b: Buffer)
    ensures b in a.data ==> WithInitialCounts(a, subs, b, {FrameDataSync}) == a.(data := a.data[b := subs.data > 0])
    ensures b in a.capture ==>
              && WithInitialCounts(a, subs, b, {ImageFrame}) == a.(capture := a.capture[b := subs.image > 0])
              && WithInitialCounts(a, subs, b, {RawFrame}) == a.(capture := a.capture[b := subs.raw > 0])
  {
  }

  /** Types without a list are not counted, and neither are buffers the adapter does not know. */
  lemma NothingElseIsCounted(a: Adapter, subs: Subscriptions, b: Buffer, mask: set<FrameType>)
    requires (b !in a.preview && b !in a.video && b !in a.data && b !in a.capture)
          || mask !! {PreviewFrameSync, SnapshotFrame, VideoFrameSync, FrameDataSync, ImageFrame, RawFrame}
    ensures WithInitialCounts(a, subs, b, mask) == a
  {
  }
}
