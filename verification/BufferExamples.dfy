/**
 Runs from the start in which things go wrong, with one buffer: a frame that nobody gets, a recording stopped too
 early, a frame returned too late, a picture taken while recording, and a display disabled while the camera streams.
 */
module BufferExamples {
  import opened Wrappers
  import opened AdapterStates
  import opened CameraAdapterModel
  import opened BufferSystem
  import opened BufferOwnership
  import opened BufferSharing
  import opened BufferWindow
  import D = DisplayModel

  const B := Handle(1)
  const NONE: multiset<Buffer> := multiset{}
  const ONE: multiset<Buffer> := multiset{B}
  const PLAIN := Arguments(None, false, NoError)

  /** A system with the one buffer: its counts, whether the driver has it, and how often it was filled. */
  function With(state: AdapterState, preview: int, video: Option<int>, queued: bool, fills: nat): System {
    System(Adapter(state, video.Some?, map[B := preview], if video.Some? then map[B := video.value] else map[],
                   map[], map[], false, NONE[B := fills], NONE),
           D.Display([B], 0, {B}, {}, {}, {}, {}, 0, D.DisplayInit, 0, 0, 0),
           !state.LoadedPreview?, false, 0, if queued then {B} else {}, NONE, NONE, NONE, NONE, NONE, NONE, NONE, NONE)
  }

  /** Recording, and the driver has the buffer. */
  const RECORDING: System := With(Video, 0, Some(0), true, 0)

  lemma OneBufferDisplay()
    ensures D.Allocate(START.display, [B], 0) == With(LoadedPreview, 0, None, false, 0).display
  {
    assert [B][..1] == [B] && [B][1..] == [];
    assert [B][..0] == [];
    assert Members([B]) == {B};
  }

  lemma OneBufferCounts()
    ensures InitialCounts([B], 1) == map[B := 0]
  {
    assert [B][..0] == [];
  }

  lemma OneBufferAdapter()
    ensures START.adapter.Valid()
    ensures Execute(START.adapter, UseBuffersPreview, Arguments(Some(Descriptor([B], 1, false)), false, NoError)).0
         == With(LoadedPreview, 0, None, false, 0).adapter
  {
    OneBufferCounts();
    assert NONE[B := 0] == NONE;
  }

  lemma SessionOpens()
    ensures START.adapter.Valid() && CanHappen(START, OpenSession([B], 0, NoError))
    ensures After(START, OpenSession([B], 0, NoError)) == With(LoadedPreview, 0, None, false, 0)
  {
    OneBufferDisplay();
    OneBufferAdapter();
    assert Distinct([B]) by { assert [B][..0] == []; }
    assert D.Allocate(START.display, [B], 0).Queueable() == 1;
  }

  lemma PreviewStarts()
    ensures var s := With(LoadedPreview, 0, None, false, 0);
            s.adapter.Valid() && MayIssue(s, StartPreview, PLAIN) && Issued(s, StartPreview, PLAIN) == With(Preview, 0, None, true, 0)
  {
    var s := With(LoadedPreview, 0, None, false, 0);
    var r := Issued(s, StartPreview, PLAIN);
    assert Free(r.adapter) == {B};
  }

  /** While recording, with frames of an earlier recording still out. */
  function Recording(preview: int, video: int, queued: bool, fills: nat, late: multiset<Buffer>): System {
    With(Video, preview, Some(video), queued, fills).(late := late)
  }

  lemma VideoCaptureStarts(a: Adapter, fills: nat)
    requires a == With(Preview, 0, None, true, fills).adapter
    ensures a.Valid() && Execute(a, StartVideo, PLAIN).0 == With(Video, 0, Some(0), true, fills).adapter
  {
    assert a.video + (map b | b in a.preview :: 0) == map[B := 0];
  }

  lemma VideoStarts(fills: nat, late: multiset<Buffer>)
    ensures var s := With(Preview, 0, None, true, fills).(late := late);
            && s.adapter.Valid() && MayIssue(s, StartVideo, PLAIN)
            && Issued(s, StartVideo, PLAIN) == Recording(0, 0, true, fills, late)
  {
    VideoCaptureStarts(With(Preview, 0, None, true, fills).adapter, fills);
  }

  // --- A frame that nobody gets ---

  /** Nobody has the buffer and the driver misses it. */
  ghost predicate Missed(s: System) {
    s.PreviewHolders(B) == 0 && s.VideoHolders(B) == 0 && !s.WithVideoClient(B) && B !in s.driver && s.previewing
  }

  /**
   The display has unsubscribed and a recorder has not. The preview dispatch fails for want of a count, and the
   video dispatch is not made: the recorder's count stands, nobody has the buffer, and the driver
   misses it.
   */
  lemma VideoOnlyFrameIsMissed()
    ensures RECORDING.adapter.Valid() && CanHappen(RECORDING, DriverCompletes(B, 0, 1, false))
    ensures var r := After(RECORDING, DriverCompletes(B, 0, 1, false));
            && r.adapter.video == map[B := 1] && Missed(r) && !r.Complete()
  {
    var r := After(RECORDING, DriverCompletes(B, 0, 1, false));
    assert r.stuckVideo == ONE && B in r.stuckVideo;
  }

  /** With an empty frame queue the counts of both types stand. */
  lemma UnqueuedFrameIsMissed()
    ensures RECORDING.adapter.Valid() && CanHappen(RECORDING, DriverCompletes(B, 1, 1, true))
    ensures var r := After(RECORDING, DriverCompletes(B, 1, 1, true));
            r.adapter.preview == map[B := 1] && r.adapter.video == map[B := 1] && Missed(r) && !r.Complete()
  {
    var r := After(RECORDING, DriverCompletes(B, 1, 1, true));
    assert r.stuck == ONE && B in r.stuck;
  }

  // --- A recording stopped too early ---

  lemma FrameIsCounted(a: Adapter, fills: nat)
    requires a == With(Video, 0, Some(0), true, fills).adapter
    ensures a.Valid()
    ensures WithInitialCounts(a, Subscriptions(1, 1, 0, 0, 0), B, {PreviewFrameSync, VideoFrameSync})
         == With(Video, 1, Some(1), false, fills).adapter
  {
  }

  lemma FrameCompletes(fills: nat, late: multiset<Buffer>)
    ensures var s := Recording(0, 0, true, fills, late);
            && s.adapter.Valid() && CanHappen(s, DriverCompletes(B, 1, 1, false))
            && After(s, DriverCompletes(B, 1, 1, false))
               == Recording(1, 1, false, fills, late).(sending := ONE, sendingVideo := ONE)
  {
    var s := Recording(0, 0, true, fills, late);
    FrameIsCounted(s.adapter, fills);
    assert NONE[B := NONE[B] + 1] == ONE && NONE[B := 0] == NONE;
    assert {B} - {B} == {};
  }

  lemma PreviewClientReturns(fills: nat, late: multiset<Buffer>)
    ensures var s := Recording(1, 1, false, fills, late).(sending := ONE, sendingVideo := ONE);
            && s.adapter.Valid() && CanHappen(s, PreviewDone(B, PreviewFrameSync, false))
            && After(s, PreviewDone(B, PreviewFrameSync, false)) == Recording(0, 1, false, fills, late).(sendingVideo := ONE)
  {
    var s := Recording(1, 1, false, fills, late).(sending := ONE, sendingVideo := ONE);
    PreviewReturn(s.adapter, B, PreviewFrameSync);
    assert ONE - multiset{B} == NONE;
  }

  lemma RecorderIsCalled(fills: nat, late: multiset<Buffer>)
    ensures var s := Recording(0, 1, false, fills, late).(sendingVideo := ONE);
            && s.adapter.Valid() && CanHappen(s, CallRecorder(B))
            && After(s, CallRecorder(B)) == Recording(0, 1, false, fills, late).(recorder := ONE)
  {
    assert ONE - multiset{B} == NONE && NONE + multiset{B} == ONE;
  }

  /** Stopping the recording hands the buffer to the driver while the recorder has it. */
  lemma StopSharesTheBuffer()
    ensures var s := Recording(0, 1, false, 0, NONE).(recorder := ONE);
            && s.adapter.Valid() && MayIssue(s, StopVideo, PLAIN)
            && Issued(s, StopVideo, PLAIN) == With(Preview, 0, None, true, 1).(late := ONE)
  {
    var s := Recording(0, 1, false, 0, NONE).(recorder := ONE);
    OneIsReclaimed(s.adapter);
    assert NONE + NONE + ONE == ONE;
    assert {} + {B} == {B};
  }

  lemma OneIsReclaimed(a: Adapter)
    requires a == Recording(0, 1, false, 0, NONE).adapter
    ensures a.Valid() && Reclaimed(a) == {B}
    ensures Execute(a, StopVideo, PLAIN).0 == With(Preview, 0, None, true, 1).adapter
  {
    assert Reclaimed(a) == {B};
    assert multiset({B}) == ONE;
    assert NONE[B := 0] + ONE == NONE[B := 1];
  }

  // --- A frame returned too late ---

  lemma OneIsRefilled(a: Adapter)
    requires a == Recording(0, 1, false, 1, ONE).adapter
    ensures a.Valid() && Returnable(a, B, VideoFrameSync) && RefCount(a, B, VideoFrameSync) == 1
    ensures var r := ReturnFrame(a, B, VideoFrameSync); r.recording && r.state == Video && r.fills != a.fills
  {
    VideoReturn(a, B);
    assert (a.fills + multiset{B})[B] == a.fills[B] + 1;
  }

  /**
   The next recording's recorder has the same buffer when the frame of the last recording comes back. The return takes
   down the count of the new frame, and the driver gets the buffer while the recorder has it.
   */
  lemma LateReturnSharesTheBuffer()
    ensures var s := Recording(0, 1, false, 1, ONE).(recorder := ONE);
            && s.adapter.Valid() && CanHappen(s, LateVideoReturn(B))
            && var r := After(s, LateVideoReturn(B));
               r.adapter.recording && B in r.driver && B in r.recorder && B in r.uncounted && B !in r.late
  {
    var s := Recording(0, 1, false, 1, ONE).(recorder := ONE);
    OneIsRefilled(s.adapter);
    assert After(s, LateVideoReturn(B)) == ReturnLate(s, B);
  }

  // --- A preview frame returned after the recording was stopped ---

  /** The frame is with a preview client and with the recorder. */
  function Seen(): System {
    Recording(1, 1, false, 0, NONE).(clients := ONE, recorder := ONE)
  }

  /** The recording is over, and the frame is still with both. */
  function SeenAfterStop(): System {
    With(Preview, 1, None, false, 0).(clients := ONE, late := ONE)
  }

  lemma NoneIsReclaimed(a: Adapter)
    requires a == Recording(1, 1, false, 0, NONE).adapter
    ensures a.Valid() && Reclaimed(a) == {}
    ensures Execute(a, StopVideo, PLAIN).0 == With(Preview, 1, None, false, 0).adapter
  {
    assert Reclaimed(a) == {};
    assert NONE[B := 0] + NONE == NONE[B := 0];
  }

  /** Nothing is shared by stopping the recording then. */
  lemma StopSharesNothingYet()
    ensures Seen().adapter.Valid() && MayIssue(Seen(), StopVideo, PLAIN) && Issued(Seen(), StopVideo, PLAIN) == SeenAfterStop()
    ensures Settled(Seen()) && !Shared(SeenAfterStop()) && forall b :: !SharedByStop(Seen(), b)
  {
    NoneIsReclaimed(Seen().adapter);
    assert NONE + NONE + ONE == ONE;
  }

  /** But when the preview client returns the frame, the driver gets the buffer, and the recorder still has it. */
  lemma NextPreviewReturnShares()
    ensures var s := SeenAfterStop();
            && s.adapter.Valid() && CanHappen(s, PreviewDone(B, PreviewFrameSync, true))
            && Shared(After(s, PreviewDone(B, PreviewFrameSync, true)))
  {
    var s := SeenAfterStop();
    var t := s.(clients := s.clients - multiset{B});
    var r := Return(t, B, PreviewFrameSync);
    assert After(s, PreviewDone(B, PreviewFrameSync, true)) == r;
    ReturnSettles(t, B, PreviewFrameSync);
    assert B in r.driver && r.WithVideoClient(B);
  }

  /** Stopping the recording shares nothing, but the next preview return does. */
  ghost predicate SharesLater(s: System) {
    && s.adapter.Valid() && MayIssue(s, StopVideo, PLAIN) && StopsRecording(s, StopVideo)
    && var stopped := Issued(s, StopVideo, PLAIN);
       && !Shared(stopped) && stopped.adapter.Valid() && CanHappen(stopped, PreviewDone(B, PreviewFrameSync, true))
       && Shared(After(stopped, PreviewDone(B, PreviewFrameSync, true)))
  }

  lemma SeenSharesLater()
    ensures Settled(Seen()) && SharesLater(Seen())
  {
    StopSharesNothingYet();
    NextPreviewReturnShares();
  }

  // --- A picture taken while recording ---

  /** What USE_BUFFERS_IMAGE_CAPTURE is given. */
  const CAPTURE := Arguments(Some(Descriptor([], 0, false)), false, NoError)

  /** The recorder has the frame, and the preview is stopped for a picture. */
  function Capturing(state: AdapterState, pictures: nat): System {
    With(state, 0, Some(1), false, 0).(recorder := ONE, previewing := false, pictures := pictures)
  }

  lemma CaptureIsLoaded(a: Adapter)
    requires a == Recording(0, 1, false, 0, NONE).adapter
    ensures a.Valid() && Execute(a, UseBuffersImageCapture, CAPTURE).0 == a.(state := VideoLoadedCapture)
  {
    assert InitialCounts([], 0) == map[];
    assert Flags(map[]) == map[];
  }

  lemma CaptureStopsPreview()
    ensures var s := Recording(0, 1, false, 0, NONE).(recorder := ONE);
            && s.adapter.Valid() && MayIssue(s, UseBuffersImageCapture, CAPTURE)
            && Issued(s, UseBuffersImageCapture, CAPTURE) == Capturing(VideoLoadedCapture, 0)
  {
    CaptureIsLoaded(Recording(0, 1, false, 0, NONE).adapter);
  }

  lemma PictureIsUnderWay()
    ensures var s := Capturing(VideoLoadedCapture, 0);
            && s.adapter.Valid() && MayIssue(s, StartImageCapture, PLAIN)
            && Issued(s, StartImageCapture, PLAIN) == Capturing(VideoCapture, 1)
  {
    var a := Capturing(VideoLoadedCapture, 0).adapter;
    assert Execute(a, StartImageCapture, PLAIN).0 == a.(state := VideoCapture);
  }

  /** The restarted driver gets the buffer that the recorder has: nothing was stopped, and nothing is late. */
  lemma PictureSharesTheBuffer()
    ensures var s := Capturing(VideoCapture, 1);
            && s.adapter.Valid() && CanHappen(s, PictureEnds(true)) && Settled(s) && SharedByStart(s, B)
            && After(s, PictureEnds(true)) == Capturing(VideoCapture, 0).(previewing := true, driver := {B})
  {
    var s := Capturing(VideoCapture, 1);
    assert Free(s.adapter) == {B};
  }

  /** When the recorder returns its frame, the driver is to fill a buffer that it has. */
  lemma RecorderFillsTwice()
    ensures var s := Capturing(VideoCapture, 0).(previewing := true, driver := {B});
            && s.adapter.Valid() && CanHappen(s, VideoDone(B, true)) && FilledTwice(s, VideoDone(B, true), B)
            && After(s, VideoDone(B, true)).adapter.fills[B] == s.adapter.fills[B] + 1
  {
    var s := Capturing(VideoCapture, 0).(previewing := true, driver := {B});
    VideoReturn(s.adapter, B);
  }

  // --- A display disabled while the camera streams ---

  /** With the display in another state. */
  function Showing(s: System, state: D.DisplayState): System {
    s.(display := s.display.(state := state))
  }

  /** The buffer of the map has been given to the window. */
  function GivenBack(s: System): System {
    s.(display := s.display.(state := D.DisplayStopped, camera := {}, gone := {B}, cancelled := {B}))
  }

  lemma DisablingGivesBack(s: System)
    requires s.display == With(Preview, 0, None, true, 0).display.(state := D.DisplayStopped)
    ensures CanHappen(s, GivesBack({B}, true)) && AfterCall(s, GivesBack({B}, true)) == GivenBack(s)
  {
    assert {} + {B} == {B};
  }

  /** A frame that is out then comes back to the driver when its client returns it, and the window has its buffer. */
  lemma ReturnAfterDisablingShares()
    ensures var s := GivenBack(With(Preview, 1, None, false, 0).(clients := ONE));
            && s.adapter.Valid() && CanHappen(s, PreviewDone(B, PreviewFrameSync, true)) && !SharedWithWindow(s)
            && SharedWithWindow(After(s, PreviewDone(B, PreviewFrameSync, true)))
  {
    var s := GivenBack(With(Preview, 1, None, false, 0).(clients := ONE));
    var t := s.(clients := s.clients - multiset{B});
    var r := Return(t, B, PreviewFrameSync);
    assert After(s, PreviewDone(B, PreviewFrameSync, true)) == r;
    ReturnSettles(t, B, PreviewFrameSync);
    assert B in r.driver && r.WithWindow(B);
  }

  // --- The runs ---

  /** Some run from the start ends in the given system. */
  ghost predicate Reached(t: System) {
    StartIsSound();
    Reaches(START, t)
  }

  lemma StartIsReached()
    ensures Reached(START)
  {
    StartIsSound();
    assert Run(START, []) == Some(START);
  }

  lemma ReachedStep(s: System, step: Step)
    requires s.adapter.Valid() && CanHappen(s, step)
    ensures Reached(s) ==> Reached(After(s, step))
  {
    StartIsSound();
    ReachedIsSound(START, s);
    if Reached(s) {
      ReachesExtends(START, s, step);
    }
  }

  lemma ReachedCommand(s: System, op: AdapterStates.Command, args: Arguments)
    requires s.adapter.Valid() && MayIssue(s, op, args)
    ensures Reached(s) ==> Reached(Issued(s, op, args))
  {
    IssueStep(s, op, args);
    ReachedStep(s, Issue(op, args));
  }

  lemma SessionIsReached()
    ensures Reached(With(LoadedPreview, 0, None, false, 0))
  {
    StartIsReached();
    SessionOpens();
    ReachedStep(START, OpenSession([B], 0, NoError));
  }

  lemma PreviewIsReached()
    ensures Reached(With(Preview, 0, None, true, 0))
  {
    SessionIsReached();
    PreviewStarts();
    ReachedCommand(With(LoadedPreview, 0, None, false, 0), StartPreview, PLAIN);
  }

  lemma RecordingIsReached()
    ensures Reached(Recording(0, 0, true, 0, NONE))
  {
    PreviewIsReached();
    VideoStarts(0, NONE);
    ReachedCommand(With(Preview, 0, None, true, 0), StartVideo, PLAIN);
  }

  lemma CompletedFrameIsReached(fills: nat, late: multiset<Buffer>)
    ensures Reached(Recording(0, 0, true, fills, late))
        ==> Reached(Recording(1, 1, false, fills, late).(sending := ONE, sendingVideo := ONE))
  {
    FrameCompletes(fills, late);
    ReachedStep(Recording(0, 0, true, fills, late), DriverCompletes(B, 1, 1, false));
  }

  lemma SeenFrameIsReached(fills: nat, late: multiset<Buffer>)
    ensures Reached(Recording(1, 1, false, fills, late).(sending := ONE, sendingVideo := ONE))
        ==> Reached(Recording(0, 1, false, fills, late).(sendingVideo := ONE))
  {
    PreviewClientReturns(fills, late);
    ReachedStep(Recording(1, 1, false, fills, late).(sending := ONE, sendingVideo := ONE),
                PreviewDone(B, PreviewFrameSync, false));
  }

  lemma RecordedFrameIsReached(fills: nat, late: multiset<Buffer>)
    ensures Reached(Recording(0, 1, false, fills, late).(sendingVideo := ONE))
        ==> Reached(Recording(0, 1, false, fills, late).(recorder := ONE))
  {
    RecorderIsCalled(fills, late);
    ReachedStep(Recording(0, 1, false, fills, late).(sendingVideo := ONE), CallRecorder(B));
  }

  /** A frame is completed; its preview client returns it, and the recorder keeps it. */
  lemma FrameIsRecorded(fills: nat, late: multiset<Buffer>)
    ensures Reached(Recording(0, 0, true, fills, late))
        ==> Reached(Recording(0, 1, false, fills, late).(recorder := ONE))
  {
    CompletedFrameIsReached(fills, late);
    SeenFrameIsReached(fills, late);
    RecordedFrameIsReached(fills, late);
  }

  /** Some run leaves a frame that nobody has and that the driver misses, although its video client is subscribed. */
  lemma SomeRunMissesAFrame()
    ensures exists s :: Reached(s) && Missed(s)
  {
    RecordingIsReached();
    VideoOnlyFrameIsMissed();
    ReachedStep(RECORDING, DriverCompletes(B, 0, 1, false));
    assert Missed(After(RECORDING, DriverCompletes(B, 0, 1, false)));
  }

  lemma StoppedIsReached()
    ensures Reached(With(Preview, 0, None, true, 1).(late := ONE))
  {
    RecordingIsReached();
    FrameIsRecorded(0, NONE);
    StopSharesTheBuffer();
    ReachedCommand(Recording(0, 1, false, 0, NONE).(recorder := ONE), StopVideo, PLAIN);
  }

  /** Some run ends with a buffer that the driver and a recorder have at once, because the recording was stopped. */
  lemma SomeRunSharesByStopping()
    ensures exists s :: Reached(s) && !s.adapter.recording && B in s.driver && s.WithVideoClient(B)
  {
    StoppedIsReached();
    var s := With(Preview, 0, None, true, 1).(late := ONE);
    assert B in s.driver && s.WithVideoClient(B);
  }

  lemma RecordingAgainIsReached()
    ensures Reached(Recording(0, 0, true, 1, ONE))
  {
    StoppedIsReached();
    VideoStarts(1, ONE);
    ReachedCommand(With(Preview, 0, None, true, 1).(late := ONE), StartVideo, PLAIN);
  }

  /** Some run ends with a buffer that the driver and the recorder of the running recording have at once, because a frame
      of the recording before was returned only now. */
  lemma SomeRunSharesByLateReturn()
    ensures exists s :: Reached(s) && s.adapter.recording && B in s.driver && B in s.recorder
  {
    RecordingAgainIsReached();
    FrameIsRecorded(1, ONE);
    LateReturnSharesTheBuffer();
    var s := Recording(0, 1, false, 1, ONE).(recorder := ONE);
    ReachedStep(s, LateVideoReturn(B));
  }

  lemma FrameIsSeen()
    ensures var s := Recording(1, 1, false, 0, NONE).(sending := ONE, sendingVideo := ONE);
            && s.adapter.Valid() && CanHappen(s, CallClient(B))
            && After(s, CallClient(B)) == s.(sending := NONE, clients := ONE)
  {
    assert ONE - multiset{B} == NONE && NONE + multiset{B} == ONE;
  }

  lemma SeenFrameIsRecorded()
    ensures var s := Recording(1, 1, false, 0, NONE).(clients := ONE, sendingVideo := ONE);
            s.adapter.Valid() && CanHappen(s, CallRecorder(B)) && After(s, CallRecorder(B)) == Seen()
  {
    assert ONE - multiset{B} == NONE && NONE + multiset{B} == ONE;
  }

  lemma SeenIsReached()
    ensures Reached(Seen())
  {
    RecordingIsReached();
    CompletedFrameIsReached(0, NONE);
    FrameIsSeen();
    ReachedStep(Recording(1, 1, false, 0, NONE).(sending := ONE, sendingVideo := ONE), CallClient(B));
    SeenFrameIsRecorded();
    ReachedStep(Recording(1, 1, false, 0, NONE).(clients := ONE, sendingVideo := ONE), CallRecorder(B));
  }

  /** Some run stops a recording at a moment when that shares nothing, with nothing late, and shares a buffer with a video
      client all the same by the preview return that follows. */
  lemma SomeRunSharesAfterStopping()
    ensures exists s :: Reached(s) && Settled(s) && SharesLater(s)
  {
    SeenIsReached();
    SeenSharesLater();
  }

  lemma PictureIsReached()
    ensures Reached(Capturing(VideoCapture, 0).(previewing := true, driver := {B}))
  {
    RecordingIsReached();
    FrameIsRecorded(0, NONE);
    CaptureStopsPreview();
    ReachedCommand(Recording(0, 1, false, 0, NONE).(recorder := ONE), UseBuffersImageCapture, CAPTURE);
    PictureIsUnderWay();
    ReachedCommand(Capturing(VideoLoadedCapture, 0), StartImageCapture, PLAIN);
    PictureSharesTheBuffer();
    ReachedStep(Capturing(VideoCapture, 1), PictureEnds(true));
  }

  /** Some run that takes a picture while recording ends with a buffer that the driver and the recorder have at once,
      although no recording was stopped; the recorder's return then queues the buffer a second time. */
  lemma SomeRunSharesByPicture()
    ensures exists s :: Reached(s) && s.adapter.recording && s.late == NONE && s.uncounted == NONE
                        && B in s.driver && B in s.recorder && FilledTwice(s, VideoDone(B, true), B)
  {
    PictureIsReached();
    RecorderFillsTwice();
    var s := Capturing(VideoCapture, 0).(previewing := true, driver := {B});
    assert B in s.driver && B in s.recorder;
  }

  lemma ReachedMessage(s: System, state: D.DisplayState)
    requires s.adapter.Valid() && D.MayTell(s.display, state)
    ensures Reached(s) ==> Reached(Showing(s, state))
  {
    ReachedStep(s, DisplayMessage(state));
  }

  lemma ReachedHandBack(s: System)
    requires s.adapter.Valid() && s.display == With(Preview, 0, None, true, 0).display.(state := D.DisplayStopped)
    ensures Reached(s) ==> Reached(GivenBack(s))
  {
    DisablingGivesBack(s);
    ReachedStep(s, GivesBack({B}, true));
  }

  lemma DisabledIsReached()
    ensures Reached(GivenBack(With(Preview, 0, None, true, 0)))
  {
    var s := With(Preview, 0, None, true, 0);
    PreviewIsReached();
    ReachedMessage(s, D.DisplayStarted);
    ReachedMessage(Showing(s, D.DisplayStarted), D.DisplayStopped);
    ReachedHandBack(Showing(s, D.DisplayStopped));
  }

  /** Some run that starts the preview and disables the display ends with a buffer that the driver and the window have. */
  lemma SomeRunSharesWithWindow()
    ensures exists s :: Reached(s) && s.previewing && SharedWithWindow(s)
  {
    DisabledIsReached();
    var s := GivenBack(With(Preview, 0, None, true, 0));
    assert B in s.driver && s.WithWindow(B);
    assert SharedWithWindow(s);
  }
}
