/**
 The buffer protocol as a whole: the camera adapter, the display adapter, the driver that fills
 preview buffers, and the clients that look at them, in one system. Each step is one
 critical section of the source; any number of them may follow in any order.
 */
module BufferSystem {
  import opened Wrappers
  import opened AdapterStates
  import opened CameraAdapterModel
  import D = DisplayModel

  /**
   `previewing` says whether the driver streams preview frames, `refusing` whether it takes itself to do so although
   nothing streams, and so refuses to be started; `pictures` counts the picture threads that
   have not finished, and `driver` is what the driver has queued for filling. A frame under way is in
   `sending` once for each preview client still to be called, and in `clients` once for each client,
   other than the display, that was called and has not returned it; `sendingVideo` and `recorder`
   are the same for the video clients of the current recording. `stuck` and `stuckVideo` are the counts
   of frames whose dispatch ended in an error: nobody was called for them. `late` are the video returns
   that may still be made for recordings stopped since, and `uncounted` is how many video clients of the
   current recording have no count any more, because a late return has used it up or a new frame in the
   same buffer has replaced it.
   */
  datatype System = System(
    adapter: Adapter,
    display: D.Display,
    previewing: bool,
    refusing: bool,
    pictures: nat,
    driver: set<Buffer>,
    sending: multiset<Buffer>,
    clients: multiset<Buffer>,
    stuck: multiset<Buffer>,
    sendingVideo: multiset<Buffer>,
    recorder: multiset<Buffer>,
    stuckVideo: multiset<Buffer>,
    late: multiset<Buffer>,
    uncounted: multiset<Buffer>)
  {
    /** Who is due to return a buffer as a preview frame. */
    function PreviewHolders(b: Buffer): nat {
      HoldersOfPreview(sending, clients, display.window, display.lost, b)
    }

    function VideoHolders(b: Buffer): nat {
      sendingVideo[b] + recorder[b]
    }

    /** A video client, of this recording or an earlier one, has the buffer or is about to get it. */
    predicate WithVideoClient(b: Buffer) {
      b in sendingVideo || b in recorder || b in late
    }

    /** The window has the buffer, due to give it back or not. */
    predicate WithWindow(b: Buffer) {
      b in display.window || b in display.cancelled
    }

    /** The invariant, but for one return that is being made. */
    ghost predicate Consistent(preview: Option<Buffer>, video: Option<Buffer>) {
      && adapter.Valid()
      && Null !in adapter.preview
      && Placed(display, adapter.preview)
      && PreviewAccounted(adapter.preview, sending, clients, display.window, display.lost, stuck, preview)
      && VideoAccounted(adapter.video, sendingVideo, recorder, stuckVideo, uncounted, video)
      && DriverFree(adapter, previewing, driver)
    }

    ghost predicate Valid() {
      Consistent(None, None)
    }

    /** The invariant: the counts are right, the two adapters speak of the same buffers, and the
        display's books balance. */
    ghost predicate Sound() {
      Valid() && display.Valid() && adapter.preview.Keys == display.All()
    }

    /** Nothing is stranded: a buffer without counts is with the driver, and no count stands that
        nobody will take down. */
    ghost predicate Complete() {
      NothingStranded(adapter, previewing, driver) && stuck == multiset{} && stuckVideo == multiset{}
    }
  }

  /** A buffer is with the window, or lost, or with the camera, and known to the camera adapter. */
  ghost predicate Placed(d: D.Display, counts: map<Buffer, int>) {
    forall b ::
      && (b in d.window ==> b !in d.lost && b in counts)
      && (b in d.lost ==> b in counts)
      && (b in d.camera || b in d.cancelled ==> b !in d.window && b !in d.lost)
  }

  function HoldersOfPreview(sending: multiset<Buffer>, clients: multiset<Buffer>, window: set<Buffer>, lost: set<Buffer>, b: Buffer): nat {
    sending[b] + clients[b] + (if b in window then 1 else 0) + (if b in lost then 1 else 0)
  }

  /** The preview counts are the numbers of holders and of dispatches that failed, but for one return owed. */
  ghost predicate PreviewAccounted(counts: map<Buffer, int>, sending: multiset<Buffer>, clients: multiset<Buffer>,
                                   window: set<Buffer>, lost: set<Buffer>, stuck: multiset<Buffer>, owed: Option<Buffer>)
  {
    && (forall b <- counts ::
          counts[b] == HoldersOfPreview(sending, clients, window, lost, b) + stuck[b] + if owed == Some(b) then 1 else 0)
    && (forall b :: b in sending || b in clients || b in stuck ==> b in counts)
    && (owed.Some? ==> owed.value in counts)
  }

  /** The video counts likewise, less the holders without a count. */
  ghost predicate VideoAccounted(counts: map<Buffer, int>, sending: multiset<Buffer>, recorder: multiset<Buffer>,
                                 stuck: multiset<Buffer>, uncounted: multiset<Buffer>, owed: Option<Buffer>)
  {
    && (forall b <- counts ::
          counts[b] + uncounted[b] == sending[b] + recorder[b] + stuck[b] + if owed == Some(b) then 1 else 0)
    && (forall b :: b in sending || b in recorder || b in stuck || b in uncounted ==> b in counts)
    && (owed.Some? ==> owed.value in counts)
  }

  /** No count stands for the buffer. */
  predicate Unowed(a: Adapter, b: Buffer) {
    b in a.preview && a.preview[b] == 0 && (b in a.video ==> a.video[b] == 0)
  }

  /** What the driver holds has no preview counts. */
  ghost predicate DriverFree(a: Adapter, previewing: bool, driver: set<Buffer>) {
    && (!previewing ==> driver == {})
    && forall b <- driver :: b in a.preview && a.preview[b] == 0
  }

  ghost predicate NothingStranded(a: Adapter, previewing: bool, driver: set<Buffer>) {
    previewing ==> forall b <- a.preview :: Unowed(a, b) ==> b in driver
  }

  /** No buffers, no frames, nothing streaming. */
  const START: System :=
    System(Adapter(Initialized, false, map[], map[], map[], map[], false, multiset{}, multiset{}),
           D.Display([], 0, {}, {}, {}, {}, {}, 0, D.DisplayInit, 0, 0, 0),
           false, false, 0, {}, multiset{}, multiset{}, multiset{}, multiset{}, multiset{}, multiset{}, multiset{}, multiset{})

  // --- The pieces of a step ---

  /** The adapter knows the buffer of a preview or video return; without video counts it knows any. */
  predicate Returnable(a: Adapter, b: Buffer, frameType: FrameType) {
    && OnPreviewBuffer(frameType)
    && (frameType.VideoFrameSync? ==> a.video == map[] || b in a.video)
    && (!frameType.VideoFrameSync? ==> b in a.preview)
  }

  /** A preview or video return reaches the adapter; if it was the last, the driver gets the buffer. */
  function Return(s: System, b: Buffer, frameType: FrameType): System
    requires s.adapter.Valid() && Returnable(s.adapter, b, frameType)
  {
    var a := ReturnFrame(s.adapter, b, frameType);
    s.(adapter := a,
       driver := if s.previewing && a.fills != s.adapter.fills then s.driver + {b} else s.driver)
  }

  /** The buffers without a preview count. */
  function Free(a: Adapter): set<Buffer> {
    set b | b in a.preview && a.preview[b] == 0
  }

  /**
   Whether the driver streams after a command. USE_BUFFERS_IMAGE_CAPTURE stops it, even where the state machine
   rejects the command, since its hook is called all the same.
   */
  predicate Previewing(s: System, op: AdapterStates.Command, args: Arguments) {
    if op.UseBuffersImageCapture? then s.previewing && !StopsDriver(op, args)
    else if Transition(s.adapter.state, op).None? then s.previewing
    else if op.StartPreview? then s.previewing || args.hook.NoError?
    else s.previewing && !op.StopPreview?
  }

  /** What the driver's hooks answer: starting fails while it takes itself to stream, stopping while it does not, and without
      an array of buffers nothing can be done. New preview buffers come with a new session only. */
  predicate MayIssue(s: System, op: AdapterStates.Command, args: Arguments) {
    && !(op.UseBuffersPreview? && s.adapter.state.Initialized?)
    && (op.StartPreview? && (s.previewing || s.refusing) ==> !args.hook.NoError?)
    && (op.StopPreview? && !s.previewing && !s.refusing ==> !args.hook.NoError?)
    && (op.UseBuffersImageCapture? && !StopsDriver(op, args) && args.descriptor.Some? ==> !args.hook.NoError?)
  }

  /** The hook of USE_BUFFERS_IMAGE_CAPTURE stops the driver unless the array of buffers is missing. */
  predicate StopsDriver(op: AdapterStates.Command, args: Arguments) {
    op.UseBuffersImageCapture? && args.descriptor.Some? && !args.descriptor.value.missing
  }

  /** The command ends a recording. */
  predicate StopsRecording(s: System, op: AdapterStates.Command) {
    op.StopVideo? && Transition(s.adapter.state, op).Some?
  }

  /** The command makes the driver queue the free buffers. */
  predicate StartsDriver(s: System, op: AdapterStates.Command, args: Arguments) {
    op.StartPreview? && Transition(s.adapter.state, op).Some? && !s.previewing && args.hook.NoError?
  }

  /** The command starts a picture thread. */
  predicate TakesPicture(s: System, op: AdapterStates.Command, args: Arguments) {
    op.StartImageCapture? && Transition(s.adapter.state, op).Some? && args.hook.NoError?
  }

  /** A command of the client; starting the preview queues the free buffers with the driver, and
      stopping it takes all of them away. Stopping the recording writes off its frames, whose
      clients may still return them. */
  function Issued(s: System, op: AdapterStates.Command, args: Arguments): System
    requires s.adapter.Valid()
  {
    var a := Execute(s.adapter, op, args).0;
    var ended := s.adapter.recording && !a.recording;
    var previewing := Previewing(s, op, args);
    var driver := if !previewing then {}
                  else if !s.previewing then Free(a)
                  else if ended then s.driver + Reclaimed(s.adapter) else s.driver;
    var r := s.(adapter := a, driver := driver, previewing := previewing,
                refusing := s.refusing && !StopsDriver(op, args) && !(op.StopPreview? && Transition(s.adapter.state, op).Some?),
                pictures := if TakesPicture(s, op, args) then s.pictures + 1 else s.pictures);
    if ended then
      r.(sendingVideo := multiset{}, recorder := multiset{}, stuckVideo := multiset{},
         late := s.late + s.sendingVideo + s.recorder, uncounted := multiset{})
    else r
  }

  /** A preview session starts: the display allocates its buffers, and the camera is told of them. */
  function StartSession(s: System, buffers: seq<Buffer>, undequeued: nat, hook: Status): System
    requires s.adapter.Valid()
  {
    var display := D.Allocate(s.display, buffers, undequeued);
    var descriptor := Descriptor(buffers, display.Queueable(), false);
    s.(adapter := Execute(s.adapter, UseBuffersPreview, Arguments(Some(descriptor), false, hook)).0,
       display := display,
       stuck := multiset{})
  }

  /** A frame is sent as a preview frame and, while recording, as a video frame. */
  function FrameMask(s: System): set<FrameType> {
    if s.adapter.recording then {PreviewFrameSync, VideoFrameSync} else {PreviewFrameSync}
  }

  /**
   The driver completes a frame: its counts are set to the numbers of subscribers, and the frame is
   sent as a preview frame and then, while recording, as a video frame. Without preview
   subscribers, or with an empty frame queue, the first dispatch is an error and there is no
   second one; the counts stay as they are. Video clients that still have the buffer lose their count to
   the new frame.
   */
  function CompleteFrame(s: System, b: Buffer, previewClients: nat, videoClients: nat, queueEmpty: bool): System {
    var failed := queueEmpty || previewClients == 0;
    var r := s.(adapter := WithInitialCounts(s.adapter, Subscriptions(previewClients, videoClients, 0, 0, 0), b, FrameMask(s)),
                driver := s.driver - {b},
                sending := if failed then s.sending else More(s.sending, b, previewClients),
                stuck := if failed then More(s.stuck, b, previewClients) else s.stuck);
    if !s.adapter.recording then r
    else
      r.(sendingVideo := if failed then s.sendingVideo else More(s.sendingVideo, b, videoClients),
         stuckVideo := s.stuckVideo[b := if failed then videoClients else 0],
         uncounted := s.uncounted[b := s.VideoHolders(b)])
  }

  function More(m: multiset<Buffer>, b: Buffer, n: nat): multiset<Buffer> {
    m[b := m[b] + n]
  }

  /** A video client returns a frame of the current recording. If a late return has used up the count
      meant for it, the adapter takes no notice. */
  function ReturnVideo(s: System, b: Buffer): System
    requires s.adapter.Valid() && b in s.adapter.video
  {
    if s.adapter.video[b] > 0 then Return(s, b, VideoFrameSync) else s.(uncounted := s.uncounted - multiset{b})
  }

  /** A video client returns a frame of a recording that was stopped meanwhile. While a new one is under
      way the return counts as one of its own. */
  function ReturnLate(s: System, b: Buffer): System
    requires s.adapter.Valid() && Returnable(s.adapter, b, VideoFrameSync)
  {
    var returned := s.(late := s.late - multiset{b});
    if RefCount(s.adapter, b, VideoFrameSync) <= 0 then returned
    else Return(returned.(uncounted := s.uncounted + multiset{b}), b, VideoFrameSync)
  }

  // --- Each piece keeps the invariant ---

  /** A preview or snapshot return in closed form. */
  lemma PreviewReturn(a: Adapter, b: Buffer, frameType: FrameType)
    requires a.Valid() && b in a.preview && !b.Null? && a.preview[b] > 0
    requires frameType.PreviewFrameSync? || frameType.SnapshotFrame?
    ensures ReturnFrame(a, b, frameType) ==
              a.(preview := a.preview[b := a.preview[b] - 1],
                 fills := if a.Combined(b) == 1 then a.fills + multiset{b} else a.fills)
  {
  }

  /** A video return in closed form. */
  lemma VideoReturn(a: Adapter, b: Buffer)
    requires a.Valid() && b in a.video && !b.Null? && a.video[b] > 0
    ensures ReturnFrame(a, b, VideoFrameSync) ==
              a.(video := a.video[b := a.video[b] - 1],
                 fills := if a.Combined(b) == 1 then a.fills + multiset{b} else a.fills)
  {
  }

  /** `s'` is `s` with one preview or video count of `b` taken down, and with `b` given to the
      streaming driver if that was the last count. */
  ghost predicate Settles(s: System, s': System, b: Buffer, video: bool) {
    && s.adapter.Valid() && b in s.adapter.preview && (video ==> b in s.adapter.video)
    && s' == s.(adapter := s'.adapter, driver := s'.driver)
    && s'.adapter.state == s.adapter.state
    && s'.adapter.preview == (if video then s.adapter.preview else s.adapter.preview[b := s.adapter.preview[b] - 1])
    && s'.adapter.video == (if video then s.adapter.video[b := s.adapter.video[b] - 1] else s.adapter.video)
    && s'.driver == if s.previewing && s.adapter.Combined(b) == 1 then s.driver + {b} else s.driver
  }

  lemma ReturnSettles(s: System, b: Buffer, frameType: FrameType)
    requires s.adapter.Valid() && OnPreviewBuffer(frameType) && b in s.adapter.preview && !b.Null?
    requires if frameType.VideoFrameSync? then b in s.adapter.video && s.adapter.video[b] > 0
             else s.adapter.preview[b] > 0
    ensures Settles(s, Return(s, b, frameType), b, frameType.VideoFrameSync?)
  {
    if frameType.VideoFrameSync? {
      VideoReturn(s.adapter, b);
    } else {
      PreviewReturn(s.adapter, b, frameType);
    }
  }

  lemma SettlingKeepsPreviewAccounts(s: System, s': System, b: Buffer, video: bool)
    requires Settles(s, s', b, video)
    requires PreviewAccounted(s.adapter.preview, s.sending, s.clients, s.display.window, s.display.lost, s.stuck,
                              if video then None else Some(b))
    ensures PreviewAccounted(s'.adapter.preview, s.sending, s.clients, s.display.window, s.display.lost, s.stuck, None)
  {
  }

  lemma SettlingKeepsVideoAccounts(s: System, s': System, b: Buffer, video: bool)
    requires Settles(s, s', b, video)
    requires VideoAccounted(s.adapter.video, s.sendingVideo, s.recorder, s.stuckVideo, s.uncounted, if video then Some(b) else None)
    ensures VideoAccounted(s'.adapter.video, s.sendingVideo, s.recorder, s.stuckVideo, s.uncounted, None)
  {
  }

  lemma SettlingKeepsDriverFree(s: System, s': System, b: Buffer, video: bool)
    requires Settles(s, s', b, video) && DriverFree(s.adapter, s.previewing, s.driver)
    requires if video then s.adapter.video[b] > 0 else s.adapter.preview[b] > 0
    ensures DriverFree(s'.adapter, s'.previewing, s'.driver)
    ensures NothingStranded(s.adapter, s.previewing, s.driver) ==> NothingStranded(s'.adapter, s'.previewing, s'.driver)
  {
  }

  lemma ReturnKeepsAccounts(s: System, b: Buffer, frameType: FrameType)
    requires OnPreviewBuffer(frameType) && b in s.adapter.preview
    requires if frameType.VideoFrameSync? then s.Consistent(None, Some(b)) else s.Consistent(Some(b), None)
    requires frameType.VideoFrameSync? ==> s.adapter.video[b] > 0
    ensures var r := Return(s, b, frameType);
            && PreviewAccounted(r.adapter.preview, s.sending, s.clients, s.display.window, s.display.lost, s.stuck, None)
            && VideoAccounted(r.adapter.video, s.sendingVideo, s.recorder, s.stuckVideo, s.uncounted, None)
  {
    ReturnSettles(s, b, frameType);
    SettlingKeepsPreviewAccounts(s, Return(s, b, frameType), b, frameType.VideoFrameSync?);
    SettlingKeepsVideoAccounts(s, Return(s, b, frameType), b, frameType.VideoFrameSync?);
  }

  lemma ReturnKeepsDriverFree(s: System, b: Buffer, frameType: FrameType)
    requires OnPreviewBuffer(frameType) && b in s.adapter.preview && !b.Null?
    requires s.adapter.Valid() && DriverFree(s.adapter, s.previewing, s.driver)
    requires if frameType.VideoFrameSync? then b in s.adapter.video && s.adapter.video[b] > 0
             else s.adapter.preview[b] > 0
    ensures var r := Return(s, b, frameType);
            && r.adapter.Valid() && r.adapter.preview.Keys == s.adapter.preview.Keys
            && r.adapter.state == s.adapter.state && DriverFree(r.adapter, r.previewing, r.driver)
            && (NothingStranded(s.adapter, s.previewing, s.driver) ==> NothingStranded(r.adapter, r.previewing, r.driver))
  {
    ReturnSettles(s, b, frameType);
    SettlingKeepsDriverFree(s, Return(s, b, frameType), b, frameType.VideoFrameSync?);
    ReturnFrameKeepsValid(s.adapter, b, frameType);
  }

  lemma ReturnKeepsConsistent(s: System, b: Buffer, frameType: FrameType)
    requires OnPreviewBuffer(frameType) && b in s.adapter.preview
    requires if frameType.VideoFrameSync? then s.Consistent(None, Some(b)) else s.Consistent(Some(b), None)
    requires frameType.VideoFrameSync? ==> s.adapter.video[b] > 0
    ensures Return(s, b, frameType).Valid()
    ensures s.Complete() ==> Return(s, b, frameType).Complete()
    ensures Return(s, b, frameType).adapter.preview.Keys == s.adapter.preview.Keys
  {
    ReturnKeepsAccounts(s, b, frameType);
    ReturnKeepsDriverFree(s, b, frameType);
    PlacesKeepWithKeys(s.display, s.adapter.preview, Return(s, b, frameType).adapter.preview);
  }

  lemma PlacesKeepWithKeys(d: D.Display, counts: map<Buffer, int>, counts': map<Buffer, int>)
    requires Placed(d, counts) && counts'.Keys == counts.Keys
    ensures Placed(d, counts')
  {
  }

  lemma ReturnVideoKeepsConsistent(s: System, b: Buffer)
    requires s.Consistent(None, Some(b))
    ensures ReturnVideo(s, b).Valid()
    ensures s.Complete() ==> ReturnVideo(s, b).Complete()
    ensures ReturnVideo(s, b).adapter.preview.Keys == s.adapter.preview.Keys
  {
    if s.adapter.video[b] > 0 {
      ReturnKeepsConsistent(s, b, VideoFrameSync);
    } else {
      UncountedShrinks(s, b);
    }
  }

  lemma UncountedShrinks(s: System, b: Buffer)
    requires VideoAccounted(s.adapter.video, s.sendingVideo, s.recorder, s.stuckVideo, s.uncounted, Some(b))
    requires s.adapter.video[b] == 0
    ensures VideoAccounted(s.adapter.video, s.sendingVideo, s.recorder, s.stuckVideo, s.uncounted - multiset{b}, None)
  {
  }

  lemma UncountedGrows(s: System, b: Buffer)
    requires VideoAccounted(s.adapter.video, s.sendingVideo, s.recorder, s.stuckVideo, s.uncounted, None)
    requires b in s.adapter.video
    ensures VideoAccounted(s.adapter.video, s.sendingVideo, s.recorder, s.stuckVideo, s.uncounted + multiset{b}, Some(b))
  {
  }

  // --- Commands ---

  lemma OtherBuffersLoad(a: Adapter, op: AdapterStates.Command, d: Descriptor)
    requires op.UseBuffersPreviewData? || op.UseBuffersImageCapture?
    ensures var loaded := WithBuffers(a, op, d); loaded == a.(capture := loaded.capture, data := loaded.data)
  {
  }

  lemma OtherBuffersEffect(a: Adapter, op: AdapterStates.Command, d: Descriptor, hook: Status)
    requires op.UseBuffersPreviewData? || op.UseBuffersImageCapture?
    ensures var r := UseBuffers(a, op, d, hook).0;
            && r == a.(state := r.state, capture := r.capture, data := r.data)
            && (r.state == a.state || Transition(a.state, op) == Some(r.state))
  {
    OtherBuffersLoad(a, op, d);
    match Transition(a.state, op)
    case None => assert UseBuffers(a, op, d, hook).0 == a;
    case Some(next) =>
      var loaded := WithBuffers(a, op, d);
      assert UseBuffers(a, op, d, hook).0 == if hook.NoError? then loaded.(state := next) else loaded;
  }

  lemma BuffersCommandEffect(a: Adapter, op: AdapterStates.Command, args: Arguments)
    requires a.Valid() && UsesBuffers(op) && !(op.UseBuffersPreview? && a.state.Initialized?)
    ensures var r := Execute(a, op, args).0;
            r == a.(state := r.state, capture := r.capture, data := r.data)
  {
    if args.descriptor.Some? && !op.UseBuffersPreview? {
      OtherBuffersEffect(a, op, args.descriptor.value, args.hook);
    } else if op.UseBuffersPreview? && Transition(a.state, op).Some? {
      SessionIsEnteredAndLeftByPreviewCommands(a.state, op);
    }
  }

  /** Commands other than the video ones leave recordings alone. */
  lemma PlainCommandEffect(a: Adapter, op: AdapterStates.Command, args: Arguments)
    requires a.Valid() && !(op.UseBuffersPreview? && a.state.Initialized?) && !op.StartVideo? && !op.StopVideo?
    ensures var r := Execute(a, op, args).0;
            r.preview == a.preview && r.video == a.video && r.fills == a.fills && r.recording == a.recording
  {
    if UsesBuffers(op) {
      BuffersCommandEffect(a, op, args);
    } else {
      HookCommandEffect(a, op, args);
    }
  }

  lemma StartVideoEffect(a: Adapter, args: Arguments)
    requires a.Valid()
    ensures var r := Execute(a, StartVideo, args).0;
            || r == a
            || (!a.recording && r.recording && r == a.(state := r.state, recording := true, video := r.video)
                && r.video == (map b | b in a.preview :: 0))
  {
    if !a.recording {
      assert a.video == map[];
      assert a.video + (map b | b in a.preview :: 0) == map b | b in a.preview :: 0;
    }
  }

  lemma StopVideoEffect(a: Adapter, args: Arguments)
    requires a.Valid()
    ensures var r := Execute(a, StopVideo, args).0;
            || r == a
            || (a.recording && !r.recording && r.preview == a.preview && r.video == map[]
                && r.fills == a.fills + multiset(Reclaimed(a)))
  {
  }

  lemma VideoCommandEffect(a: Adapter, op: AdapterStates.Command, args: Arguments)
    requires a.Valid() && (op.StartVideo? || op.StopVideo?)
    ensures var r := Execute(a, op, args).0;
            && r.preview == a.preview
            && (r.recording == a.recording ==> r == a)
            && (!a.recording && r.recording ==> r.video == (map b | b in a.preview :: 0) && r.fills == a.fills)
            && (a.recording && !r.recording ==> r.video == map[] && r.fills == a.fills + multiset(Reclaimed(a)))
  {
    if op.StartVideo? {
      StartVideoEffect(a, args);
    } else {
      StopVideoEffect(a, args);
    }
  }

  /** What a command can do to the parts of the adapter that matter here. */
  lemma CommandEffect(a: Adapter, op: AdapterStates.Command, args: Arguments)
    requires a.Valid() && !(op.UseBuffersPreview? && a.state.Initialized?)
    ensures var r := Execute(a, op, args).0;
            && r.preview == a.preview
            && (r.recording == a.recording ==> r.video == a.video && r.fills == a.fills)
            && (!a.recording && r.recording ==> r.video == (map b | b in a.preview :: 0) && r.fills == a.fills)
            && (a.recording && !r.recording ==> r.video == map[] && r.fills == a.fills + multiset(Reclaimed(a)))
  {
    if op.StartVideo? || op.StopVideo? {
      VideoCommandEffect(a, op, args);
    } else {
      PlainCommandEffect(a, op, args);
    }
  }

  /** A buffer that stopping the recording strands: its preview clients are done with it and the driver does not
      have it, but it was sent to more than one video client, and only one return is made for them. */
  ghost predicate StrandedByStop(s: System, b: Buffer) {
    b in s.adapter.preview && b in s.adapter.video && s.adapter.preview[b] == 0 && s.adapter.video[b] >= 2 && b !in s.driver
  }

  /** A recording ends while the driver streams, and some buffer is stranded. */
  ghost predicate StopStrands(s: System, r: System) {
    s.adapter.recording && !r.adapter.recording && s.previewing && exists b :: StrandedByStop(s, b)
  }

  lemma OnlyPreviewCommandsRestart(s: System, op: AdapterStates.Command, args: Arguments)
    requires s.adapter.Valid()
    ensures Previewing(s, op, args) && !s.previewing ==> op.StartPreview?
    ensures s.adapter.recording && !Execute(s.adapter, op, args).0.recording ==> Previewing(s, op, args) == s.previewing
  {
    if op.StartPreview? || op.StopPreview? {
      HookCommandEffect(s.adapter, op, args);
    } else if op.UseBuffersImageCapture? {
      BuffersCommandEffect(s.adapter, op, args);
    }
  }

  /** What an accepted STOP_VIDEO does to the driver and to the clients. */
  lemma StopVideoWritesOff(s: System, args: Arguments)
    requires s.adapter.Valid() && StopsRecording(s, StopVideo)
    ensures var r := Issued(s, StopVideo, args);
            && r.previewing == s.previewing && r.driver == (if s.previewing then s.driver + Reclaimed(s.adapter) else {})
            && r.adapter.preview == s.adapter.preview && r.adapter.video == map[]
            && r.adapter.fills == s.adapter.fills + multiset(Reclaimed(s.adapter))
            && r.sendingVideo == multiset{} && r.recorder == multiset{}
            && r.late == s.late + s.sendingVideo + s.recorder && r.uncounted == multiset{}
  {
    AcceptedVideoCommandSucceeds(s.adapter, StopVideo, args);
    VideoCommandEffect(s.adapter, StopVideo, args);
    VideoStatesAreEnteredAndLeftByVideoCommands(s.adapter.state, StopVideo);
  }

  /** All other commands leave the clients alone and fill nothing. */
  lemma OtherCommandMovesNoFrames(s: System, op: AdapterStates.Command, args: Arguments)
    requires s.adapter.Valid() && MayIssue(s, op, args) && !StopsRecording(s, op)
    ensures var r := Issued(s, op, args);
            && r.driver == (if StartsDriver(s, op, args) then Free(s.adapter) else if r.previewing then s.driver else {})
            && r.adapter.fills == s.adapter.fills
            && r.sendingVideo == s.sendingVideo && r.recorder == s.recorder
            && r.late == s.late && r.uncounted == s.uncounted
  {
    CommandEffect(s.adapter, op, args);
    OnlyPreviewCommandsRestart(s, op, args);
    if op.StartVideo? || op.StopVideo? {
      AcceptedVideoCommandSucceeds(s.adapter, op, args);
    } else {
      PlainCommandEffect(s.adapter, op, args);
    }
  }

  /** A rejected USE_BUFFERS_IMAGE_CAPTURE changes nothing in the adapter, and reports what its hook does; but, unless the array
      of buffers is missing, the preview is stopped, and no picture thread will start it again. */
  lemma RejectedCaptureStopsPreview(s: System, args: Arguments)
    requires s.adapter.Valid() && Transition(s.adapter.state, UseBuffersImageCapture).None? && args.descriptor.Some?
    requires DriverFree(s.adapter, s.previewing, s.driver)
    ensures Issued(s, UseBuffersImageCapture, args)
         == if args.descriptor.value.missing then s else s.(previewing := false, refusing := false, driver := {})
    ensures Execute(s.adapter, UseBuffersImageCapture, args).1 == args.hook
  {
    BuffersCommandEffect(s.adapter, UseBuffersImageCapture, args);
    CommandMovesByTheTable(s.adapter, UseBuffersImageCapture, args);
  }

  /** The ways in which a command can touch the driver's buffers. */
  lemma CommandKeepsDriverFree(s: System, op: AdapterStates.Command, args: Arguments)
    requires s.adapter.Valid() && DriverFree(s.adapter, s.previewing, s.driver) && Null !in s.adapter.preview
    requires !(op.UseBuffersPreview? && s.adapter.state.Initialized?)
    ensures var r := Issued(s, op, args);
            && DriverFree(r.adapter, r.previewing, r.driver)
            && (s.Complete() ==> (r.Complete() <==> !StopStrands(s, r)))
  {
    CommandEffect(s.adapter, op, args);
    OnlyPreviewCommandsRestart(s, op, args);
    CommandDriverByCases(s, Issued(s, op, args));
  }

  /** The same, from the effect of the command alone. */
  lemma CommandDriverByCases(s: System, r: System)
    requires s.adapter.Valid() && DriverFree(s.adapter, s.previewing, s.driver) && Null !in s.adapter.preview
    requires r.adapter.preview == s.adapter.preview
    requires r.adapter.recording == s.adapter.recording ==> r.adapter.video == s.adapter.video
    requires !s.adapter.recording && r.adapter.recording ==> r.adapter.video == map b | b in s.adapter.preview :: 0
    requires s.adapter.recording && !r.adapter.recording ==> r.adapter.video == map[] && r.previewing == s.previewing
    requires r.stuck == s.stuck && (r.stuckVideo == s.stuckVideo || r.stuckVideo == multiset{})
    requires r.driver == if !r.previewing then {}
                         else if !s.previewing then Free(r.adapter)
                         else if s.adapter.recording && !r.adapter.recording then s.driver + Reclaimed(s.adapter)
                         else s.driver
    ensures DriverFree(r.adapter, r.previewing, r.driver)
    ensures s.Complete() ==> (r.Complete() <==> !StopStrands(s, r))
  {
    if s.adapter.recording && !r.adapter.recording && s.previewing && s.Complete() {
      forall b <- r.adapter.preview | r.adapter.preview[b] == 0
        ensures b in r.driver <==> !StrandedByStop(s, b)
      {
      }
    }
  }

  lemma CommandKeepsAccounts(s: System, op: AdapterStates.Command, args: Arguments)
    requires s.adapter.Valid()
    requires VideoAccounted(s.adapter.video, s.sendingVideo, s.recorder, s.stuckVideo, s.uncounted, None)
    requires !(op.UseBuffersPreview? && s.adapter.state.Initialized?)
    ensures var r := Issued(s, op, args);
            && r.adapter.preview == s.adapter.preview
            && VideoAccounted(r.adapter.video, r.sendingVideo, r.recorder, r.stuckVideo, r.uncounted, None)
  {
    CommandEffect(s.adapter, op, args);
    CommandKeepsValid(s.adapter, op, args);
  }

  lemma CommandKeepsSystemValid(s: System, op: AdapterStates.Command, args: Arguments)
    requires s.Valid() && MayIssue(s, op, args)
    ensures Issued(s, op, args).Valid() && SameBuffers(s, Issued(s, op, args))
    ensures s.Complete() ==> (Issued(s, op, args).Complete() <==> !StopStrands(s, Issued(s, op, args)))
  {
    CommandKeepsAccounts(s, op, args);
    CommandKeepsDriverFree(s, op, args);
    assert Issued(s, op, args).adapter.Valid() by { CommandKeepsValid(s.adapter, op, args); }
  }

  // --- Sessions and frames ---

  /**
   A session may start once the camera is back in its first state and the driver has stopped. That every preview
   frame of the previous session has been returned by then is an assumption about the clients; nothing in
   the source enforces it.
   */
  ghost predicate MayStartSession(s: System, buffers: seq<Buffer>) {
    && s.adapter.state == Initialized && !s.previewing
    && s.sending == multiset{} && s.clients == multiset{}
    && Distinct(buffers) && Null !in buffers
  }

  /** What the camera is told of the buffers agrees with how the display split them. */
  lemma CountsAgreeWithSplit(d: D.Display, buffers: seq<Buffer>, undequeued: nat)
    requires Distinct(buffers)
    ensures var display := D.Allocate(d, buffers, undequeued);
            var counts := InitialCounts(buffers, display.Queueable());
            && counts.Keys == display.All()
            && forall b <- counts :: counts[b] == if b in display.window then 1 else 0
  {
    var display := D.Allocate(d, buffers, undequeued);
    var kept := display.Queueable();
    var counts := InitialCounts(buffers, kept);
    InitialCountsOfDistinct(buffers, kept);
    D.SplitIsPartition(buffers, kept);
    forall b <- counts ensures counts[b] == if b in display.window then 1 else 0 {
      InMembers(buffers, b);
      InMembers(buffers[..kept], b);
      InMembers(buffers[kept..], b);
      var i :| 0 <= i < |buffers| && buffers[i] == b;
      if i < kept {
        assert buffers[..kept][i] == b;
      } else {
        assert buffers[kept..][i - kept] == b;
      }
    }
  }

  /** What a session start leaves of the adapter. */
  lemma SessionCounts(s: System, buffers: seq<Buffer>, undequeued: nat, hook: Status)
    requires s.adapter.Valid() && s.adapter.state.Initialized?
    ensures var r := StartSession(s, buffers, undequeued, hook);
            && r.adapter.preview == InitialCounts(buffers, r.display.Queueable())
            && r.adapter.video == s.adapter.video == map[] && r.adapter.Valid()
  {
    var display := D.Allocate(s.display, buffers, undequeued);
    UseBuffersKeepsValid(s.adapter, UseBuffersPreview, Descriptor(buffers, display.Queueable(), false), hook);
  }

  lemma SessionIsAccounted(s: System, buffers: seq<Buffer>, undequeued: nat, hook: Status)
    requires s.Valid() && MayStartSession(s, buffers)
    ensures var r := StartSession(s, buffers, undequeued, hook);
            && PreviewAccounted(r.adapter.preview, s.sending, s.clients, r.display.window, r.display.lost, r.stuck, None)
            && r.adapter.preview.Keys == r.display.All() && Null !in r.adapter.preview
  {
    SessionCounts(s, buffers, undequeued, hook);
    CountsAgreeWithSplit(s.display, buffers, undequeued);
    InMembers(buffers, Null);
  }

  lemma StartSessionKeepsValid(s: System, buffers: seq<Buffer>, undequeued: nat, hook: Status)
    requires s.Valid() && MayStartSession(s, buffers)
    ensures StartSession(s, buffers, undequeued, hook).Sound()
    ensures StartSession(s, buffers, undequeued, hook).Complete()
  {
    var r := StartSession(s, buffers, undequeued, hook);
    SessionCounts(s, buffers, undequeued, hook);
    SessionIsAccounted(s, buffers, undequeued, hook);
    D.AllocateIsValid(s.display, buffers, undequeued);
    PlacesOfValidDisplay(r.display, r.adapter.preview);
  }

  lemma PlacesOfValidDisplay(d: D.Display, counts: map<Buffer, int>)
    requires d.Valid() && counts.Keys == d.All()
    ensures Placed(d, counts)
  {
  }

  lemma CompleteFrameKeepsValid(s: System, b: Buffer, previewClients: nat, videoClients: nat, queueEmpty: bool)
    requires s.Valid() && b in s.driver
    ensures CompleteFrame(s, b, previewClients, videoClients, queueEmpty).Valid()
    ensures SameBuffers(s, CompleteFrame(s, b, previewClients, videoClients, queueEmpty))
  {
    var r := CompleteFrame(s, b, previewClients, videoClients, queueEmpty);
    FrameKeepsAccounts(s, r, b, previewClients, videoClients, queueEmpty);
    FrameCounts(s, r, b, previewClients, videoClients, queueEmpty);
    FrameLeavesDriver(s, r, b);
    PlacesKeepWithKeys(s.display, s.adapter.preview, r.adapter.preview);
  }

  lemma FrameKeepsAccounts(s: System, r: System, b: Buffer, previewClients: nat, videoClients: nat, queueEmpty: bool)
    requires s.Valid() && b in s.driver && r == CompleteFrame(s, b, previewClients, videoClients, queueEmpty)
    ensures PreviewAccounted(r.adapter.preview, r.sending, s.clients, s.display.window, s.display.lost, r.stuck, None)
    ensures VideoAccounted(r.adapter.video, r.sendingVideo, s.recorder, r.stuckVideo, r.uncounted, None)
  {
    assert b in s.adapter.preview && s.adapter.preview[b] == 0;
    FrameCounts(s, r, b, previewClients, videoClients, queueEmpty);
    PreviewRecounted(s, r, b, previewClients);
    if s.adapter.recording {
      VideoRecounted(s, r, b, videoClients);
    }
  }

  /** A completed frame is not missed exactly if it has a preview client and can be sent. */
  lemma FrameIsMissedExactlyIf(s: System, b: Buffer, previewClients: nat, videoClients: nat, queueEmpty: bool)
    requires s.Valid() && s.Complete() && b in s.driver
    ensures CompleteFrame(s, b, previewClients, videoClients, queueEmpty).Complete() <==> previewClients > 0 && !queueEmpty
  {
    var r := CompleteFrame(s, b, previewClients, videoClients, queueEmpty);
    FrameCounts(s, r, b, previewClients, videoClients, queueEmpty);
    if queueEmpty || previewClients == 0 {
      FailedFrameIsMissed(s, r, b, previewClients);
    } else {
      FrameLeavesDriver(s, r, b);
      SentFrameIsComplete(s, r, b);
    }
  }

  /** The counts of a completed frame in closed form. */
  lemma FrameCounts(s: System, r: System, b: Buffer, previewClients: nat, videoClients: nat, queueEmpty: bool)
    requires s.adapter.Valid() && b in s.adapter.preview
    requires r == CompleteFrame(s, b, previewClients, videoClients, queueEmpty)
    ensures r.adapter.Valid() && r.adapter.state == s.adapter.state && r.adapter.recording == s.adapter.recording
    ensures r.adapter.preview == s.adapter.preview[b := previewClients]
    ensures r.adapter.video == if s.adapter.recording then s.adapter.video[b := videoClients] else s.adapter.video
    ensures r.adapter.preview.Keys == s.adapter.preview.Keys && r.adapter.video.Keys == s.adapter.video.Keys
  {
    InitialCountsKeepValid(s.adapter, Subscriptions(previewClients, videoClients, 0, 0, 0), b, FrameMask(s));
    assert r.adapter.preview.Keys == s.adapter.preview.Keys;
    assert r.adapter.video.Keys == s.adapter.video.Keys;
  }

  lemma PreviewRecounted(s: System, r: System, b: Buffer, clients: nat)
    requires PreviewAccounted(s.adapter.preview, s.sending, s.clients, s.display.window, s.display.lost, s.stuck, None)
    requires b in s.adapter.preview && s.adapter.preview[b] == 0
    requires r.adapter.preview == s.adapter.preview[b := clients]
    requires (r.sending, r.stuck) == (More(s.sending, b, clients), s.stuck)
          || (r.sending, r.stuck) == (s.sending, More(s.stuck, b, clients))
    ensures PreviewAccounted(r.adapter.preview, r.sending, s.clients, s.display.window, s.display.lost, r.stuck, None)
  {
  }

  lemma VideoRecounted(s: System, r: System, b: Buffer, clients: nat)
    requires VideoAccounted(s.adapter.video, s.sendingVideo, s.recorder, s.stuckVideo, s.uncounted, None)
    requires b in s.adapter.video && r.adapter.video == s.adapter.video[b := clients]
    requires r.uncounted == s.uncounted[b := s.VideoHolders(b)]
    requires (r.sendingVideo, r.stuckVideo) == (More(s.sendingVideo, b, clients), s.stuckVideo[b := 0])
          || (r.sendingVideo, r.stuckVideo) == (s.sendingVideo, s.stuckVideo[b := clients])
    ensures VideoAccounted(r.adapter.video, r.sendingVideo, s.recorder, r.stuckVideo, r.uncounted, None)
  {
  }

  lemma FrameLeavesDriver(s: System, r: System, b: Buffer)
    requires DriverFree(s.adapter, s.previewing, s.driver) && b in s.driver && b in r.adapter.preview
    requires r.previewing == s.previewing && r.driver == s.driver - {b}
    requires r.adapter.preview == s.adapter.preview[b := r.adapter.preview[b]]
    requires r.adapter.video == s.adapter.video
          || (b in r.adapter.video && r.adapter.video == s.adapter.video[b := r.adapter.video[b]])
    ensures DriverFree(r.adapter, r.previewing, r.driver)
    ensures NothingStranded(s.adapter, s.previewing, s.driver) ==>
              (NothingStranded(r.adapter, r.previewing, r.driver) <==> !Unowed(r.adapter, b))
  {
    forall o | o != b && o in s.adapter.preview ensures Unowed(r.adapter, o) <==> Unowed(s.adapter, o) {
    }
  }

  lemma SentFrameIsComplete(s: System, r: System, b: Buffer)
    requires s.Complete() && b in r.adapter.preview && r.adapter.preview[b] > 0
    requires NothingStranded(r.adapter, r.previewing, r.driver) <==> !Unowed(r.adapter, b)
    requires r.stuck == s.stuck
    requires r.stuckVideo == s.stuckVideo || r.stuckVideo == s.stuckVideo[b := 0]
    ensures r.Complete()
  {
    var none: multiset<Buffer> := multiset{};
    assert none[b := 0] == none;
  }

  /** A frame whose dispatch failed leaves either no count, and then it is not with the driver, or a count that
      nobody takes down. */
  lemma FailedFrameIsMissed(s: System, r: System, b: Buffer, previewClients: nat)
    requires DriverFree(s.adapter, s.previewing, s.driver) && b in s.driver
    requires r.adapter.Valid() && r.previewing
    requires b in r.adapter.preview && r.adapter.preview[b] == previewClients
    requires r.driver == s.driver - {b} && r.stuck == More(s.stuck, b, previewClients)
    requires b in r.adapter.video && r.adapter.video[b] > 0 ==> b in r.stuckVideo
    ensures !r.Complete()
  {
    if r.stuck == multiset{} && r.stuckVideo == multiset{} {
      assert previewClients == 0 && b !in r.stuckVideo;
      assert Unowed(r.adapter, b);
    }
  }

  // --- Steps ---

  datatype Step =
    | Issue(op: AdapterStates.Command, args: Arguments)
    | OpenSession(buffers: seq<Buffer>, undequeued: nat, hook: Status)
    | AutoFocusFinishes
    | PictureEnds(taken: bool)
    | SensorResets(ok: bool)
    | DeviceFails
    | DriverCompletes(b: Buffer, previewClients: nat, videoClients: nat, queueEmpty: bool)
    | CallDisplay(b: Buffer, accepted: bool)
    | CallClient(b: Buffer)
    | CallRecorder(b: Buffer)
    | PreviewDone(b: Buffer, frameType: FrameType, called: bool)
    | VideoDone(b: Buffer, called: bool)
    | LateVideoReturn(b: Buffer)
    | SurplusReturn(b: Buffer, frameType: FrameType)
    | DisplayTurn(outcome: D.Dequeue)
    | DisplayMessage(state: D.DisplayState)
    | GivesBack(cancels: set<Buffer>, emptied: bool)

  predicate IsPreviewType(frameType: FrameType) {
    frameType.PreviewFrameSync? || frameType.SnapshotFrame?
  }

  /**
   When a step can be taken. A client returns only what it holds, and the dispatcher returns a frame for a
   client it could not call; a return nobody expects is a SurplusReturn. The adapter knows the buffers of all returns: for all but
   late and surplus ones that follows from the invariant, by HoldersAreKnown.
   */
  ghost predicate CanHappen(s: System, step: Step) {
    match step
    case Issue(op, args) => MayIssue(s, op, args)
    case OpenSession(buffers, _, _) => MayStartSession(s, buffers)
    case AutoFocusFinishes => true
    case PictureEnds(_) => s.pictures > 0
    case SensorResets(_) => s.previewing
    case DeviceFails => true
    case DriverCompletes(b, _, _, _) => b in s.driver
    case CallDisplay(b, _) => b in s.sending && (b in s.display.camera || b in s.display.cancelled)
    case CallClient(b) => b in s.sending
    case CallRecorder(b) => b in s.sendingVideo
    case PreviewDone(b, frameType, called) =>
      IsPreviewType(frameType) && b in s.adapter.preview && if called then b in s.clients else b in s.sending
    case VideoDone(b, called) => b in s.adapter.video && if called then b in s.recorder else b in s.sendingVideo
    case LateVideoReturn(b) => b in s.late && Returnable(s.adapter, b, VideoFrameSync)
    case SurplusReturn(b, frameType) =>
      Returnable(s.adapter, b, frameType) && RefCount(s.adapter, b, frameType) <= 0
    case DisplayTurn(outcome) => D.Possible(s.display, outcome) && forall b <- s.display.window :: b in s.adapter.preview
    case DisplayMessage(state) => D.MayTell(s.display, state)
    case GivesBack(cancels, emptied) => D.MayGiveBack(s.display, cancels, emptied)
  }

  /** What the invariant says of single buffers: whoever is due to return one is known and counted. */
  ghost predicate HoldersKnown(s: System) {
    && s.adapter.Valid() && Null !in s.adapter.preview
    && DriverFree(s.adapter, s.previewing, s.driver)
    && (forall b :: b in s.sending || b in s.clients || b in s.display.window ==> b in s.adapter.preview && s.adapter.preview[b] > 0)
    && (forall b :: b in s.sendingVideo || b in s.recorder ==> b in s.adapter.video && b in s.adapter.preview)
  }

  lemma HoldersAreKnown(s: System)
    requires s.Valid()
    ensures HoldersKnown(s)
  {
  }

  function PreviewClientDone(s: System, b: Buffer, frameType: FrameType, called: bool): System
    requires s.adapter.Valid() && b in s.adapter.preview && IsPreviewType(frameType)
  {
    Return(if called then s.(clients := s.clients - multiset{b}) else s.(sending := s.sending - multiset{b}), b, frameType)
  }

  function VideoClientDone(s: System, b: Buffer, called: bool): System
    requires s.adapter.Valid() && b in s.adapter.video
  {
    ReturnVideo(if called then s.(recorder := s.recorder - multiset{b})
                else s.(sendingVideo := s.sendingVideo - multiset{b}), b)
  }

  ghost function TurnDisplay(s: System, outcome: D.Dequeue): System
    requires s.adapter.Valid() && D.Possible(s.display, outcome)
    requires forall b <- s.display.window :: b in s.adapter.preview
  {
    var turned := s.(display := D.ServeQueue(s.display, outcome));
    match D.HandedBack(s.display, outcome)
    case None => turned
    case Some(b) => Return(turned, b, PreviewFrameSync)
  }

  /** The steps in which a return reaches the camera adapter. */
  predicate IsReturn(step: Step) {
    step.PreviewDone? || step.VideoDone? || step.LateVideoReturn? || step.SurplusReturn? || step.DisplayTurn?
  }

  ghost function AfterReturn(s: System, step: Step): System
    requires s.adapter.Valid() && CanHappen(s, step) && IsReturn(step)
  {
    match step
    case PreviewDone(b, frameType, called) => PreviewClientDone(s, b, frameType, called)
    case VideoDone(b, called) => VideoClientDone(s, b, called)
    case LateVideoReturn(b) => ReturnLate(s, b)
    case SurplusReturn(b, frameType) => Return(s, b, frameType)
    case DisplayTurn(outcome) => TurnDisplay(s, outcome)
  }

  /** The steps that hand a frame on, or that only the display notices. */
  predicate IsCall(step: Step) {
    step.CallDisplay? || step.CallClient? || step.CallRecorder? || step.DisplayMessage? || step.GivesBack?
  }

  function AfterCall(s: System, step: Step): System
    requires IsCall(step)
  {
    match step
    case CallDisplay(b, accepted) =>
      s.(sending := s.sending - multiset{b}, display := D.PostFrame(s.display, b, accepted))
    case CallClient(b) => s.(sending := s.sending - multiset{b}, clients := s.clients + multiset{b})
    case CallRecorder(b) => s.(sendingVideo := s.sendingVideo - multiset{b}, recorder := s.recorder + multiset{b})
    case DisplayMessage(state) => s.(display := s.display.(state := state))
    case GivesBack(cancels, emptied) => s.(display := D.GiveBack(s.display, cancels, emptied))
  }

  /** The steps in which the driver starts or stops by itself. */
  predicate IsDriver(step: Step) {
    step.PictureEnds? || step.SensorResets? || step.DeviceFails?
  }

  /**
   A picture thread that gets its picture takes the stream off and starts the preview again; if another thread has done
   so before, the driver refuses and nothing streams. A reset takes all buffers from the driver and queues the free
   ones; a device that fails is closed. Free are the buffers without a preview count: the video counts are
   not looked at.
   */
  function AfterDriver(s: System, step: Step): System
    requires IsDriver(step) && (step.PictureEnds? ==> s.pictures > 0)
  {
    match step
    case PictureEnds(taken) =>
      var r := s.(pictures := s.pictures - 1);
      if !taken || s.refusing then r
      else if s.previewing then r.(previewing := false, refusing := true, driver := {})
      else r.(previewing := true, driver := Free(s.adapter))
    case SensorResets(ok) => s.(driver := if ok then Free(s.adapter) else {})
    case DeviceFails => s.(previewing := false, refusing := false, driver := {})
  }

  ghost function After(s: System, step: Step): System
    requires s.adapter.Valid() && CanHappen(s, step)
  {
    if IsReturn(step) then AfterReturn(s, step)
    else if IsCall(step) then AfterCall(s, step)
    else if IsDriver(step) then AfterDriver(s, step)
    else if step.Issue? then Issued(s, step.op, step.args)
    else if step.OpenSession? then StartSession(s, step.buffers, step.undequeued, step.hook)
    else if step.DriverCompletes? then CompleteFrame(s, step.b, step.previewClients, step.videoClients, step.queueEmpty)
    else s.(adapter := FinishAutoFocus(s.adapter))
  }

  lemma IssueStep(s: System, op: AdapterStates.Command, args: Arguments)
    requires s.adapter.Valid() && MayIssue(s, op, args)
    ensures CanHappen(s, Issue(op, args)) && After(s, Issue(op, args)) == Issued(s, op, args)
  {
  }

  /** The buffers a session is about stay the same until the next session. */
  ghost predicate SameBuffers(s: System, r: System) {
    r.adapter.preview.Keys == s.adapter.preview.Keys && r.display.buffers == s.display.buffers
  }

  // --- Every step keeps the invariant ---

  lemma AutoFocusKeepsSystemValid(s: System)
    requires s.Valid()
    ensures var r := s.(adapter := FinishAutoFocus(s.adapter));
            r.Valid() && (s.Complete() ==> r.Complete())
  {
    FinishAutoFocusKeepsValid(s.adapter);
  }

  /** A frame leaves the dispatcher's hands: a return is owed, or the frame has passed to another holder. */
  lemma SendingShrinks(s: System, b: Buffer)
    requires PreviewAccounted(s.adapter.preview, s.sending, s.clients, s.display.window, s.display.lost, s.stuck, None)
    requires b in s.sending
    ensures PreviewAccounted(s.adapter.preview, s.sending - multiset{b}, s.clients, s.display.window, s.display.lost, s.stuck, Some(b))
  {
  }

  lemma SendingPassesToClient(s: System, b: Buffer)
    requires PreviewAccounted(s.adapter.preview, s.sending, s.clients, s.display.window, s.display.lost, s.stuck, None)
    requires b in s.sending
    ensures PreviewAccounted(s.adapter.preview, s.sending - multiset{b}, s.clients + multiset{b},
                             s.display.window, s.display.lost, s.stuck, None)
  {
  }

  lemma SendingPassesToWindow(s: System, b: Buffer)
    requires PreviewAccounted(s.adapter.preview, s.sending, s.clients, s.display.window, s.display.lost, s.stuck, None)
    requires b in s.sending && b !in s.display.window && b !in s.display.lost
    ensures PreviewAccounted(s.adapter.preview, s.sending - multiset{b}, s.clients, s.display.window + {b}, s.display.lost, s.stuck, None)
    ensures PreviewAccounted(s.adapter.preview, s.sending - multiset{b}, s.clients, s.display.window, s.display.lost + {b}, s.stuck, None)
  {
  }

  lemma ClientsShrink(s: System, b: Buffer)
    requires PreviewAccounted(s.adapter.preview, s.sending, s.clients, s.display.window, s.display.lost, s.stuck, None)
    requires b in s.clients
    ensures PreviewAccounted(s.adapter.preview, s.sending, s.clients - multiset{b}, s.display.window, s.display.lost, s.stuck, Some(b))
  {
  }

  lemma WindowShrinks(s: System, b: Buffer)
    requires PreviewAccounted(s.adapter.preview, s.sending, s.clients, s.display.window, s.display.lost, s.stuck, None)
    requires b in s.display.window && b !in s.display.lost && b in s.adapter.preview
    ensures PreviewAccounted(s.adapter.preview, s.sending, s.clients, s.display.window - {b}, s.display.lost, s.stuck, Some(b))
    ensures PreviewAccounted(s.adapter.preview, s.sending, s.clients, s.display.window - {b}, s.display.lost + {b}, s.stuck, None)
  {
  }

  lemma VideoShrinks(s: System, b: Buffer)
    requires VideoAccounted(s.adapter.video, s.sendingVideo, s.recorder, s.stuckVideo, s.uncounted, None)
    ensures b in s.sendingVideo ==>
              && VideoAccounted(s.adapter.video, s.sendingVideo - multiset{b}, s.recorder, s.stuckVideo, s.uncounted, Some(b))
              && VideoAccounted(s.adapter.video, s.sendingVideo - multiset{b}, s.recorder + multiset{b}, s.stuckVideo, s.uncounted, None)
    ensures b in s.recorder ==> VideoAccounted(s.adapter.video, s.sendingVideo, s.recorder - multiset{b}, s.stuckVideo, s.uncounted, Some(b))
  {
  }

  lemma CallDisplayKeepsValid(s: System, b: Buffer, accepted: bool)
    requires s.Valid() && b in s.sending && (b in s.display.camera || b in s.display.cancelled)
    ensures var r := s.(sending := s.sending - multiset{b}, display := D.PostFrame(s.display, b, accepted));
            r.Valid()
  {
    SendingPassesToWindow(s, b);
  }

  lemma CallClientKeepsValid(s: System, b: Buffer)
    requires s.Valid() && b in s.sending
    ensures s.(sending := s.sending - multiset{b}, clients := s.clients + multiset{b}).Valid()
  {
    SendingPassesToClient(s, b);
  }

  lemma CallRecorderKeepsValid(s: System, b: Buffer)
    requires s.Valid() && b in s.sendingVideo
    ensures s.(sendingVideo := s.sendingVideo - multiset{b}, recorder := s.recorder + multiset{b}).Valid()
  {
    VideoShrinks(s, b);
  }

  lemma PreviewClientDoneKeepsValid(s: System, b: Buffer, frameType: FrameType, called: bool)
    requires s.Valid() && (if called then b in s.clients else b in s.sending) && IsPreviewType(frameType)
    ensures PreviewClientDone(s, b, frameType, called).Valid()
    ensures s.Complete() ==> PreviewClientDone(s, b, frameType, called).Complete()
    ensures SameBuffers(s, PreviewClientDone(s, b, frameType, called))
  {
    HoldersAreKnown(s);
    if called {
      ClientsShrink(s, b);
      ReturnKeepsConsistent(s.(clients := s.clients - multiset{b}), b, frameType);
    } else {
      SendingShrinks(s, b);
      ReturnKeepsConsistent(s.(sending := s.sending - multiset{b}), b, frameType);
    }
  }

  /** A video client has given its frame up in `t`, and its return is owed. */
  lemma OwedVideoReturnKeepsValid(s: System, t: System, b: Buffer)
    requires s.Valid() && t == s.(sendingVideo := t.sendingVideo, recorder := t.recorder)
    requires VideoAccounted(s.adapter.video, t.sendingVideo, t.recorder, s.stuckVideo, s.uncounted, Some(b))
    ensures ReturnVideo(t, b).Valid() && SameBuffers(s, ReturnVideo(t, b))
    ensures s.Complete() ==> ReturnVideo(t, b).Complete()
  {
    ReturnVideoKeepsConsistent(t, b);
  }

  lemma VideoClientDoneKeepsValid(s: System, b: Buffer, called: bool)
    requires s.Valid() && (if called then b in s.recorder else b in s.sendingVideo)
    ensures VideoClientDone(s, b, called).Valid()
    ensures s.Complete() ==> VideoClientDone(s, b, called).Complete()
    ensures SameBuffers(s, VideoClientDone(s, b, called))
  {
    VideoShrinks(s, b);
    if called {
      OwedVideoReturnKeepsValid(s, s.(recorder := s.recorder - multiset{b}), b);
    } else {
      OwedVideoReturnKeepsValid(s, s.(sendingVideo := s.sendingVideo - multiset{b}), b);
    }
  }

  lemma ReturnLateKeepsValid(s: System, b: Buffer)
    requires s.Valid() && Returnable(s.adapter, b, VideoFrameSync)
    ensures ReturnLate(s, b).Valid()
    ensures s.Complete() ==> ReturnLate(s, b).Complete()
    ensures SameBuffers(s, ReturnLate(s, b))
  {
    if RefCount(s.adapter, b, VideoFrameSync) > 0 {
      UncountedGrows(s, b);
      ReturnKeepsConsistent(s.(late := s.late - multiset{b}, uncounted := s.uncounted + multiset{b}), b, VideoFrameSync);
    }
  }

  /** A turn of the display leaves a return to be made exactly if it hands a buffer back. */
  lemma TurnOwesReturn(s: System, turned: System, outcome: D.Dequeue)
    requires s.Valid() && D.Possible(s.display, outcome) && turned == s.(display := D.ServeQueue(s.display, outcome))
    ensures turned.Consistent(D.HandedBack(s.display, outcome), None)
    ensures s.Complete() ==> turned.Complete()
  {
    if outcome.Refused? {
      RefusedTurnOwesNothing(s, turned, outcome);
    } else {
      WindowShrinks(s, outcome.b);
    }
  }

  lemma RefusedTurnOwesNothing(s: System, turned: System, outcome: D.Dequeue)
    requires s.Valid() && outcome.Refused? && turned == s.(display := D.ServeQueue(s.display, outcome))
    ensures turned.Consistent(D.HandedBack(s.display, outcome), None)
    ensures s.Complete() ==> turned.Complete()
  {
  }

  lemma TurnDisplayKeepsValid(s: System, outcome: D.Dequeue)
    requires s.Valid() && D.Possible(s.display, outcome)
    ensures TurnDisplay(s, outcome).Valid()
    ensures s.Complete() ==> TurnDisplay(s, outcome).Complete()
    ensures SameBuffers(s, TurnDisplay(s, outcome))
  {
    var turned := s.(display := D.ServeQueue(s.display, outcome));
    TurnOwesReturn(s, turned, outcome);
    if D.HandedBack(s.display, outcome).Some? {
      ReturnKeepsConsistent(turned, outcome.b, PreviewFrameSync);
    }
  }

  lemma ReturnStepKeepsValid(s: System, step: Step)
    requires s.Valid() && CanHappen(s, step) && IsReturn(step)
    ensures AfterReturn(s, step).Valid() && SameBuffers(s, AfterReturn(s, step))
    ensures s.Complete() ==> AfterReturn(s, step).Complete()
  {
    match step
    case PreviewDone(b, frameType, called) => PreviewClientDoneKeepsValid(s, b, frameType, called);
    case VideoDone(b, called) => VideoClientDoneKeepsValid(s, b, called);
    case LateVideoReturn(b) => ReturnLateKeepsValid(s, b);
    case SurplusReturn(b, frameType) => SurplusReturnChangesNothing(s, b, frameType);
    case DisplayTurn(outcome) => TurnDisplayKeepsValid(s, outcome);
  }

  lemma CallStepKeepsValid(s: System, step: Step)
    requires s.Valid() && CanHappen(s, step) && IsCall(step)
    ensures AfterCall(s, step).Valid() && SameBuffers(s, AfterCall(s, step))
  {
    match step
    case CallDisplay(b, accepted) => CallDisplayKeepsValid(s, b, accepted);
    case CallClient(b) => CallClientKeepsValid(s, b);
    case CallRecorder(b) => CallRecorderKeepsValid(s, b);
    case DisplayMessage(state) =>
    case GivesBack(cancels, emptied) =>
  }

  lemma DriverStepKeepsValid(s: System, step: Step)
    requires s.Valid() && CanHappen(s, step) && IsDriver(step)
    ensures AfterDriver(s, step).Valid() && SameBuffers(s, AfterDriver(s, step))
  {
    DriverStepKeepsDriverFree(s, step);
  }

  lemma DriverStepKeepsDriverFree(s: System, step: Step)
    requires IsDriver(step) && (step.PictureEnds? ==> s.pictures > 0) && (step.SensorResets? ==> s.previewing)
    requires DriverFree(s.adapter, s.previewing, s.driver)
    ensures var r := AfterDriver(s, step);
            && r == s.(previewing := r.previewing, refusing := r.refusing, pictures := r.pictures, driver := r.driver)
            && DriverFree(r.adapter, r.previewing, r.driver)
            && (s.Complete() ==>
                  (r.Complete() <==> !(step.SensorResets? && !step.ok && exists b :: Unowed(s.adapter, b))))
  {
  }

  lemma CallLeavesDriverAlone(s: System, step: Step)
    requires IsCall(step)
    ensures var r := AfterCall(s, step);
            && r.adapter == s.adapter && r.driver == s.driver && r.previewing == s.previewing
            && r.stuck == s.stuck && r.stuckVideo == s.stuckVideo
  {
  }

  lemma OtherStepKeepsValid(s: System, step: Step)
    requires s.Valid() && CanHappen(s, step) && !step.OpenSession? && !IsReturn(step) && !IsCall(step) && !IsDriver(step)
    ensures After(s, step).Valid() && SameBuffers(s, After(s, step))
  {
    match step
    case Issue(op, args) => CommandKeepsSystemValid(s, op, args);
    case AutoFocusFinishes => AutoFocusKeepsSystemValid(s);
    case DriverCompletes(b, previewClients, videoClients, queueEmpty) =>
      CompleteFrameKeepsValid(s, b, previewClients, videoClients, queueEmpty);
  }

  lemma StepKeepsValid(s: System, step: Step)
    requires s.Valid() && CanHappen(s, step) && !step.OpenSession?
    ensures After(s, step).Valid() && SameBuffers(s, After(s, step))
  {
    if IsReturn(step) {
      ReturnStepKeepsValid(s, step);
    } else if IsCall(step) {
      CallStepKeepsValid(s, step);
    } else if IsDriver(step) {
      DriverStepKeepsValid(s, step);
    } else {
      OtherStepKeepsValid(s, step);
    }
  }

  lemma SurplusReturnChangesNothing(s: System, b: Buffer, frameType: FrameType)
    requires s.adapter.Valid() && Returnable(s.adapter, b, frameType) && RefCount(s.adapter, b, frameType) <= 0
    ensures Return(s, b, frameType) == s
  {
    SurplusReturnIsIgnored(s.adapter, b, frameType);
  }

  /** The display's part of a step. */
  function DisplayAfter(d: D.Display, step: Step): D.Display {
    if step.CallDisplay? then D.PostFrame(d, step.b, step.accepted)
    else if step.DisplayTurn? then D.ServeQueue(d, step.outcome)
    else if step.DisplayMessage? then d.(state := step.state)
    else if step.GivesBack? then D.GiveBack(d, step.cancels, step.emptied)
    else d
  }

  lemma ReturnActsOnDisplay(s: System, step: Step)
    requires s.adapter.Valid() && CanHappen(s, step) && IsReturn(step)
    ensures AfterReturn(s, step).display == DisplayAfter(s.display, step)
  {
  }

  lemma StepActsOnDisplay(s: System, step: Step)
    requires s.adapter.Valid() && CanHappen(s, step) && !step.OpenSession?
    ensures After(s, step).display == DisplayAfter(s.display, step)
  {
    if IsReturn(step) {
      ReturnActsOnDisplay(s, step);
    }
  }

  lemma DisplayAfterIsValid(d: D.Display, step: Step)
    requires d.Valid() && (step.CallDisplay? ==> step.b in d.Idle()) && (step.DisplayTurn? ==> D.Possible(d, step.outcome))
    requires step.DisplayMessage? ==> D.MayTell(d, step.state)
    requires step.GivesBack? ==> D.MayGiveBack(d, step.cancels, step.emptied)
    ensures DisplayAfter(d, step).Valid()
  {
    if step.CallDisplay? {
      D.PostFrameKeepsValid(d, step.b, step.accepted);
    } else if step.DisplayTurn? {
      D.ServeQueueKeepsValid(d, step.outcome);
    } else if step.DisplayMessage? {
      D.TellKeepsValid(d, step.state);
    } else if step.GivesBack? {
      D.GiveBackKeepsValid(d, step.cancels, step.emptied);
    }
  }

  lemma StepKeepsDisplay(s: System, step: Step)
    requires s.Valid() && s.display.Valid() && CanHappen(s, step) && !step.OpenSession?
    ensures After(s, step).display.Valid()
  {
    StepActsOnDisplay(s, step);
    DisplayAfterIsValid(s.display, step);
  }

  lemma RegisteredBuffersStay(s: System, r: System)
    requires s.adapter.preview.Keys == s.display.All() && SameBuffers(s, r)
    ensures r.adapter.preview.Keys == r.display.All()
  {
  }

  lemma SessionStep(s: System, step: Step)
    requires s.adapter.Valid() && CanHappen(s, step) && step.OpenSession?
    ensures After(s, step) == StartSession(s, step.buffers, step.undequeued, step.hook)
  {
  }

  lemma SessionStepKeepsSound(s: System, step: Step)
    requires s.Sound() && CanHappen(s, step) && step.OpenSession?
    ensures After(s, step).Sound()
  {
    SessionStep(s, step);
    StartSessionKeepsValid(s, step.buffers, step.undequeued, step.hook);
  }

  lemma OtherStepKeepsSound(s: System, step: Step)
    requires s.Sound() && CanHappen(s, step)
    ensures !step.OpenSession? ==> After(s, step).Sound()
  {
    if !step.OpenSession? {
      StepKeepsValid(s, step);
      StepKeepsDisplay(s, step);
      RegisteredBuffersStay(s, After(s, step));
    }
  }

  /** The invariant holds at every moment of every run. */
  lemma StepKeepsSound(s: System, step: Step)
    requires s.Sound() && CanHappen(s, step)
    ensures After(s, step).Sound()
  {
    if step.OpenSession? {
      SessionStepKeepsSound(s, step);
    } else {
      OtherStepKeepsSound(s, step);
    }
  }

  /** The system after a step, or None if the step cannot happen. */
  ghost function Next(s: System, step: Step): (next: Option<System>)
    ensures next.Some? ==> next.value.Sound()
  {
    if s.Sound() && CanHappen(s, step) then
      StepKeepsSound(s, step);
      Some(After(s, step))
    else None
  }

  /** The system after a run of steps from `s`, or None if one of them cannot happen. */
  ghost function Run(s: System, steps: seq<Step>): (end: Option<System>)
    ensures s.Sound() && end.Some? ==> end.value.Sound()
    decreases |steps|
  {
    if steps == [] then Some(s)
    else
      match Run(s, steps[..|steps| - 1])
      case None => None
      case Some(t) => Next(t, steps[|steps| - 1])
  }

  /** Some run from `s` ends in `t`. */
  ghost predicate Reaches(s: System, t: System) {
    exists steps :: Run(s, steps) == Some(t)
  }

  lemma OneMoreStep(s: System, steps: seq<Step>, t: System, step: Step)
    ensures Run(s, steps) == Some(t) ==> Run(s, steps + [step]) == Next(t, step)
  {
    assert (steps + [step])[..|steps|] == steps;
  }

  lemma NextIsAfter(s: System, step: Step)
    requires s.Sound() && CanHappen(s, step)
    ensures Next(s, step) == Some(After(s, step))
  {
  }

  lemma ReachesExtends(s: System, t: System, step: Step)
    ensures t.Sound() && CanHappen(t, step) && Reaches(s, t) ==> Reaches(s, After(t, step))
  {
    if t.Sound() && CanHappen(t, step) && Reaches(s, t) {
      NextIsAfter(t, step);
      var steps :| Run(s, steps) == Some(t);
      ReachesNext(s, steps, t, step, After(t, step));
    }
  }

  lemma ReachesNext(s: System, steps: seq<Step>, t: System, step: Step, next: System)
    ensures Run(s, steps) == Some(t) && Next(t, step) == Some(next) ==> Reaches(s, next)
  {
    if Run(s, steps) == Some(t) {
      OneMoreStep(s, steps, t, step);
      RunReaches(s, steps + [step], next);
    }
  }

  lemma RunReaches(s: System, steps: seq<Step>, t: System)
    ensures Run(s, steps) == Some(t) ==> Reaches(s, t)
  {
  }

  lemma ReachedIsSound(s: System, t: System)
    requires s.Sound()
    ensures Reaches(s, t) ==> t.Sound()
  {
    if Reaches(s, t) {
      var steps :| Run(s, steps) == Some(t);
      assert Run(s, steps).value.Sound();
    }
  }
}
