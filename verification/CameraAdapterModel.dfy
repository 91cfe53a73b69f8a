/**
 The state of the camera adapter as a value, and what its operations do to it:
 the reference counts of the four buffer families, the recording flag, and the
 calls that hand buffers back to the driver. The class BaseCameraAdapter.Adapter
 is proved against these functions.
 */
module CameraAdapterModel {
  import opened Wrappers
  import opened AdapterStates

  /** A buffer handle, possibly the null pointer. */
  datatype Buffer = Null | Handle(id: int)

  datatype FrameType =
    | PreviewFrameSync
    | PreviewFrame
    | ImageFrameSync
    | ImageFrame
    | VideoFrameSync
    | VideoFrame
    | FrameDataSync
    | FrameData
    | RawFrame
    | SnapshotFrame

  /** The frame types in the order of their mask bits. */
  const FRAME_TYPES: seq<FrameType> :=
    [PreviewFrameSync, PreviewFrame, ImageFrameSync, ImageFrame, VideoFrameSync,
     VideoFrame, FrameDataSync, FrameData, RawFrame, SnapshotFrame]

  datatype Status = NoError | InvalidOperation | InvalidArgument | NoInit | HookFailed(code: int)

  /** The buffers a client hands over; the first `maxQueueable` of them are free to be
      filled, the provider still holds the rest. The array itself may be missing, a null pointer. */
  datatype Descriptor = Descriptor(buffers: seq<Buffer>, maxQueueable: nat, missing: bool) {
    predicate Valid() {
      maxQueueable <= |buffers| && (missing ==> buffers == [])
    }
  }

  /** The arguments of a command: the descriptor and the frame may be null, and `hook` is
      what the overridable hook returns if it is called. */
  datatype Arguments = Arguments(descriptor: Option<Descriptor>, frame: bool, hook: Status) {
    predicate Valid() {
      descriptor.Some? ==> descriptor.value.Valid()
    }
  }

  /** The sizes of the five frame subscriber lists. */
  datatype Subscriptions = Subscriptions(frame: nat, video: nat, image: nat, raw: nat, data: nat)

  /**
   The adapter between two operations. Capture and preview-data counts are kept in
   maps of booleans (camera/inc/BaseCameraAdapter.h), so they saturate at one.
   `fills` and `releases` are all the calls of `fillThisBuffer` so far, the first for
   preview, snapshot and video frames, the second for the other frame types.
   */
  datatype Adapter = Adapter(
    state: AdapterState,
    recording: bool,
    preview: map<Buffer, int>,
    video: map<Buffer, int>,
    capture: map<Buffer, bool>,
    data: map<Buffer, bool>,
    focusMove: bool,
    fills: multiset<Buffer>,
    releases: multiset<Buffer>)
  {
    /** Recording goes with the video states, and then and only then every preview
        buffer has a video count. */
    predicate Valid() {
      && (recording <==> InVideo(state))
      && video.Keys == (if recording then preview.Keys else {})
      && (forall b <- preview :: 0 <= preview[b])
      && (forall b <- video :: 0 <= video[b])
    }

    /** How many returns are outstanding for a preview buffer. */
    function Combined(b: Buffer): int
      requires b in preview && (recording ==> b in video)
    {
      preview[b] + if recording then video[b] else 0
    }
  }

  // --- Reference counts ---

  /** The counts set by a use-buffers command; a repeated buffer keeps its last count. */
  function InitialCounts(buffers: seq<Buffer>, maxQueueable: nat): map<Buffer, int> {
    if buffers == [] then map[]
    else
      var last := |buffers| - 1;
      InitialCounts(buffers[..last], maxQueueable)[buffers[last] := if last < maxQueueable then 0 else 1]
  }

  /** The members of a list. */
  function Members(buffers: seq<Buffer>): set<Buffer>
    decreases |buffers|
  {
    if buffers == [] then {}
    else
      var last := |buffers| - 1;
      Members(buffers[..last]) + {buffers[last]}
  }

  lemma {:induction false} InMembers(buffers: seq<Buffer>, b: Buffer)
    ensures b in Members(buffers) <==> b in buffers
    decreases |buffers|
  {
    if buffers != [] {
      var last := |buffers| - 1;
      InMembers(buffers[..last], b);
      assert buffers == buffers[..last] + [buffers[last]];
    }
  }

  predicate Distinct(buffers: seq<Buffer>)
    decreases |buffers|
  {
    buffers == [] ||
    var last := |buffers| - 1;
    buffers[last] !in buffers[..last] && Distinct(buffers[..last])
  }

  lemma {:induction false} DistinctPair(buffers: seq<Buffer>, i: nat, j: nat)
    requires Distinct(buffers) && i < j < |buffers|
    ensures buffers[i] != buffers[j]
    decreases |buffers|
  {
    var last := |buffers| - 1;
    if j < last {
      DistinctPair(buffers[..last], i, j);
    } else {
      assert buffers[..last][i] == buffers[i];
    }
  }

  lemma {:induction false} DistinctPrefix(buffers: seq<Buffer>, n: nat)
    requires Distinct(buffers) && n <= |buffers|
    ensures Distinct(buffers[..n])
    decreases |buffers|
  {
    if n == |buffers| {
      assert buffers[..n] == buffers;
    } else {
      var last := |buffers| - 1;
      DistinctPrefix(buffers[..last], n);
      assert buffers[..last][..n] == buffers[..n];
    }
  }

  /** Of distinct buffers, the first `maxQueueable` have count zero, the others one. */
  lemma {:induction false} InitialCountsOfDistinct(buffers: seq<Buffer>, maxQueueable: nat)
    requires Distinct(buffers)
    ensures var counts := InitialCounts(buffers, maxQueueable);
            && counts.Keys == Members(buffers)
            && forall i :: 0 <= i < |buffers| ==>
                 buffers[i] in counts && counts[buffers[i]] == if i < maxQueueable then 0 else 1
    decreases |buffers|
  {
    if buffers != [] {
      var last := |buffers| - 1;
      var init, counts := buffers[..last], InitialCounts(buffers, maxQueueable);
      InitialCountsOfDistinct(init, maxQueueable);
      forall i | 0 <= i < |buffers|
        ensures buffers[i] in counts && counts[buffers[i]] == if i < maxQueueable then 0 else 1
      {
        if i < last { assert init[i] == buffers[i]; }
      }
    }
  }

  lemma {:induction false} InitialCountsAreZeroOrOne(buffers: seq<Buffer>, maxQueueable: nat)
    ensures forall b <- InitialCounts(buffers, maxQueueable) :: 0 <= InitialCounts(buffers, maxQueueable)[b] <= 1
  {
    if buffers != [] {
      InitialCountsAreZeroOrOne(buffers[..|buffers| - 1], maxQueueable);
    }
  }

  function Flags(counts: map<Buffer, int>): map<Buffer, bool> {
    map b | b in counts :: counts[b] != 0
  }

  /** The count lookup succeeds: the buffer is one the adapter was given. */
  predicate Known(a: Adapter, b: Buffer, frameType: FrameType) {
    match frameType
    case ImageFrame | RawFrame => b in a.capture
    case PreviewFrameSync | SnapshotFrame => b in a.preview
    case FrameDataSync => b in a.data
    case VideoFrameSync => a.video != map[] ==> b in a.video
    case _ => true
  }

  function RefCount(a: Adapter, b: Buffer, frameType: FrameType): int
    requires Known(a, b, frameType)
  {
    match frameType
    case ImageFrame | RawFrame => if a.capture[b] then 1 else 0
    case PreviewFrameSync | SnapshotFrame => a.preview[b]
    case FrameDataSync => if a.data[b] then 1 else 0
    case VideoFrameSync => if a.video == map[] then -1 else a.video[b]
    case _ => -1
  }

  function Recount<V>(counts: map<Buffer, V>, b: Buffer, counted: bool, count: V): map<Buffer, V> {
    if b in counts && counted then counts[b := count] else counts
  }

  /** Replaces a count; an unknown buffer is left alone. */
  function WithRefCount(a: Adapter, b: Buffer, frameType: FrameType, count: int): Adapter {
    match frameType
    case ImageFrame | RawFrame => a.(capture := Recount(a.capture, b, true, count != 0))
    case PreviewFrameSync | SnapshotFrame => a.(preview := Recount(a.preview, b, true, count))
    case FrameDataSync => a.(data := Recount(a.data, b, true, count != 0))
    case VideoFrameSync => a.(video := Recount(a.video, b, true, count))
    case _ => a
  }

  /** The frame types whose frames live in preview buffers. */
  predicate OnPreviewBuffer(frameType: FrameType) {
    frameType.PreviewFrameSync? || frameType.SnapshotFrame? || frameType.VideoFrameSync?
  }

  // --- Returning a frame ---

  /** One client gives a buffer back. The last one to do so lets the driver fill it again. */
  function ReturnFrame(a: Adapter, b: Buffer, frameType: FrameType): Adapter
    requires a.Valid() && (!b.Null? ==> Known(a, b, frameType))
  {
    if b.Null? || RefCount(a, b, frameType) <= 0 then a
    else
      var left := RefCount(a, b, frameType) - 1;
      var counted := WithRefCount(a, b, frameType, left);
      if !OnPreviewBuffer(frameType) then
        if left == 0 then counted.(releases := counted.releases + multiset{b}) else counted
      else if counted.Combined(b) == 0 then counted.(fills := counted.fills + multiset{b})
      else counted
  }

  lemma RecountKeepsValid(a: Adapter, b: Buffer, frameType: FrameType, count: nat)
    requires a.Valid() && Known(a, b, frameType)
    ensures var r := WithRefCount(a, b, frameType, count);
            r.Valid() && r.state == a.state && r.preview.Keys == a.preview.Keys && Known(r, b, frameType)
  {
    var r := WithRefCount(a, b, frameType, count);
    assert r.preview.Keys == a.preview.Keys && r.video.Keys == a.video.Keys;
  }

  lemma ReturnFrameKeepsValid(a: Adapter, b: Buffer, frameType: FrameType)
    requires a.Valid() && Known(a, b, frameType)
    ensures ReturnFrame(a, b, frameType).Valid()
    ensures Known(ReturnFrame(a, b, frameType), b, frameType)
    ensures ReturnFrame(a, b, frameType).state == a.state
    ensures ReturnFrame(a, b, frameType).preview.Keys == a.preview.Keys
  {
    if !b.Null? && RefCount(a, b, frameType) > 0 {
      RecountKeepsValid(a, b, frameType, RefCount(a, b, frameType) - 1);
    }
  }

  lemma OtherCountsStay(a: Adapter, b: Buffer, frameType: FrameType, other: Buffer)
    requires a.Valid() && !b.Null? && b in a.preview && OnPreviewBuffer(frameType)
    requires RefCount(a, b, frameType) > 0 && other in a.preview && other != b
    ensures ReturnFrame(a, b, frameType).Valid() && ReturnFrame(a, b, frameType).Combined(other) == a.Combined(other)
  {
    ReturnFrameKeepsValid(a, b, frameType);
    var r := ReturnFrame(a, b, frameType);
    assert r.preview[other] == a.preview[other] && (a.recording ==> r.video[other] == a.video[other]);
  }

  /** A preview buffer goes back to the driver on exactly the return that takes the
      combined count of its clients from one to zero; every other count stays put. */
  lemma DriverRefillsOnLastReturn(a: Adapter, b: Buffer, frameType: FrameType)
    requires a.Valid() && !b.Null? && b in a.preview && OnPreviewBuffer(frameType)
    requires RefCount(a, b, frameType) > 0
    ensures var r := ReturnFrame(a, b, frameType);
            && r.Valid()
            && r.Combined(b) == a.Combined(b) - 1 >= 0
            && r.fills == (if a.Combined(b) == 1 then a.fills + multiset{b} else a.fills)
            && r.releases == a.releases
            && (forall other | other in a.preview && other != b :: r.Combined(other) == a.Combined(other))
  {
    ReturnFrameKeepsValid(a, b, frameType);
    var r := ReturnFrame(a, b, frameType);
    forall other | other in a.preview && other != b ensures r.Combined(other) == a.Combined(other) {
      OtherCountsStay(a, b, frameType, other);
    }
  }

  /** Returning a buffer nobody is known to hold changes nothing at all. */
  lemma SurplusReturnIsIgnored(a: Adapter, b: Buffer, frameType: FrameType)
    requires a.Valid() && Known(a, b, frameType) && RefCount(a, b, frameType) <= 0
    ensures ReturnFrame(a, b, frameType) == a
  {
  }

  /** `times` returns in a row, as the dispatcher does for frames it could not deliver. */
  function ReturnFrames(a: Adapter, b: Buffer, frameType: FrameType, times: nat): Adapter
    requires a.Valid() && Known(a, b, frameType)
    decreases times
  {
    if times == 0 then a
    else
      ReturnFrameKeepsValid(a, b, frameType);
      ReturnFrames(ReturnFrame(a, b, frameType), b, frameType, times - 1)
  }

  // --- Dispatching a frame ---

  /** The counts a frame starts with: one return per subscriber of each of its types. */
  function WithInitialCounts(a: Adapter, subs: Subscriptions, b: Buffer, mask: set<FrameType>): Adapter {
    a.(preview := Recount(a.preview, b, PreviewFrameSync in mask || SnapshotFrame in mask, subs.frame),
       video := Recount(a.video, b, VideoFrameSync in mask, subs.video),
       data := Recount(a.data, b, FrameDataSync in mask, subs.data != 0),
       capture := Recount(a.capture, b, ImageFrame in mask || RawFrame in mask,
                          if RawFrame in mask then subs.raw != 0 else subs.image != 0))
  }

  /** The subscriber list a frame type is counted by. */
  function SubscribersOf(subs: Subscriptions, frameType: FrameType): nat {
    match frameType
    case ImageFrame => subs.image
    case RawFrame => subs.raw
    case PreviewFrameSync | SnapshotFrame => subs.frame
    case VideoFrameSync => subs.video
    case FrameDataSync => subs.data
    case _ => 0
  }

  lemma PreviewCountGrows(a: Adapter, subs: Subscriptions, b: Buffer, mask: set<FrameType>, frameType: FrameType)
    requires frameType.PreviewFrameSync? || frameType.SnapshotFrame?
    ensures WithRefCount(WithInitialCounts(a, subs, b, mask), b, frameType, SubscribersOf(subs, frameType))
         == WithInitialCounts(a, subs, b, mask + {frameType})
  {
    var before, grown := WithInitialCounts(a, subs, b, mask), mask + {frameType};
    var count := SubscribersOf(subs, frameType);
    assert Recount(before.preview, b, true, count) == Recount(a.preview, b, true, count);
  }

  lemma VideoCountGrows(a: Adapter, subs: Subscriptions, b: Buffer, mask: set<FrameType>, frameType: FrameType)
    requires frameType.VideoFrameSync?
    ensures WithRefCount(WithInitialCounts(a, subs, b, mask), b, frameType, SubscribersOf(subs, frameType))
         == WithInitialCounts(a, subs, b, mask + {frameType})
  {
    var before, grown := WithInitialCounts(a, subs, b, mask), mask + {frameType};
    var count := SubscribersOf(subs, frameType);
    assert Recount(before.video, b, true, count) == Recount(a.video, b, true, count);
  }

  lemma DataCountGrows(a: Adapter, subs: Subscriptions, b: Buffer, mask: set<FrameType>, frameType: FrameType)
    requires frameType.FrameDataSync?
    ensures WithRefCount(WithInitialCounts(a, subs, b, mask), b, frameType, SubscribersOf(subs, frameType))
         == WithInitialCounts(a, subs, b, mask + {frameType})
  {
    var before, grown := WithInitialCounts(a, subs, b, mask), mask + {frameType};
    var count := SubscribersOf(subs, frameType);
    assert Recount(before.data, b, true, count != 0) == Recount(a.data, b, true, count != 0);
  }

  lemma CaptureCountGrows(a: Adapter, subs: Subscriptions, b: Buffer, mask: set<FrameType>, frameType: FrameType)
    requires frameType.RawFrame? || (frameType.ImageFrame? && RawFrame !in mask)
    ensures WithRefCount(WithInitialCounts(a, subs, b, mask), b, frameType, SubscribersOf(subs, frameType))
         == WithInitialCounts(a, subs, b, mask + {frameType})
  {
    var before, grown := WithInitialCounts(a, subs, b, mask), mask + {frameType};
    var count := SubscribersOf(subs, frameType);
    assert Recount(before.capture, b, true, count != 0) == Recount(a.capture, b, true, count != 0);
  }

  /** Counting one more frame type; a raw count must not be overwritten by an image count. */
  lemma InitialCountsGrow(a: Adapter, subs: Subscriptions, b: Buffer, mask: set<FrameType>, frameType: FrameType)
    requires frameType.ImageFrame? ==> RawFrame !in mask
    ensures WithRefCount(WithInitialCounts(a, subs, b, mask), b, frameType, SubscribersOf(subs, frameType))
         == WithInitialCounts(a, subs, b, mask + {frameType})
  {
    match frameType
    case PreviewFrameSync | SnapshotFrame => PreviewCountGrows(a, subs, b, mask, frameType);
    case VideoFrameSync => VideoCountGrows(a, subs, b, mask, frameType);
    case FrameDataSync => DataCountGrows(a, subs, b, mask, frameType);
    case ImageFrame | RawFrame => CaptureCountGrows(a, subs, b, mask, frameType);
    case PreviewFrame | ImageFrameSync | VideoFrame | FrameData =>
      assert WithInitialCounts(a, subs, b, mask) == WithInitialCounts(a, subs, b, mask + {frameType});
  }

  lemma InitialCountsKeepValid(a: Adapter, subs: Subscriptions, b: Buffer, mask: set<FrameType>)
    requires a.Valid()
    ensures WithInitialCounts(a, subs, b, mask).Valid()
  {
    var r := WithInitialCounts(a, subs, b, mask);
    assert r.preview.Keys == a.preview.Keys;
    assert r.video.Keys == a.video.Keys;
  }

  /**
   A picture handed to the image subscribers goes back to the driver on the first return, whatever their number,
   because a boolean cannot count higher; later returns are ignored.
   */
  lemma PictureIsReleasedOnFirstReturn(a: Adapter, subs: Subscriptions, b: Buffer, given: nat)
    requires a.Valid() && !b.Null? && b in a.capture && subs.image > 0
    ensures var sent := WithInitialCounts(a, subs, b, {ImageFrame});
            && sent.Valid() && Known(sent, b, ImageFrame)
            && ReturnFrames(sent, b, ImageFrame, given).releases
               == a.releases + if given == 0 then multiset{} else multiset{b}
  {
    var sent := WithInitialCounts(a, subs, b, {ImageFrame});
    InitialCountsKeepValid(a, subs, b, {ImageFrame});
    if given > 0 {
      var released := ReturnFrame(sent, b, ImageFrame);
      ReturnFrameKeepsValid(sent, b, ImageFrame);
      assert RefCount(released, b, ImageFrame) == 0;
      SurplusReturnsAreIgnored(released, b, ImageFrame, given - 1);
    } else {
      assert a.releases + multiset{} == a.releases;
    }
  }

  lemma {:induction false} SurplusReturnsAreIgnored(a: Adapter, b: Buffer, frameType: FrameType, times: nat)
    requires a.Valid() && Known(a, b, frameType) && RefCount(a, b, frameType) <= 0
    ensures ReturnFrames(a, b, frameType, times) == a
    decreases times
  {
    if times > 0 {
      SurplusReturnsAreIgnored(a, b, frameType, times - 1);
    }
  }

  /** After some returns the driver has the picture's buffer although a subscriber has yet to return it. */
  ghost predicate ReleasedWhileHeld(a: Adapter, subs: Subscriptions, b: Buffer)
    requires a.Valid() && b in a.capture
  {
    var sent := WithInitialCounts(a, subs, b, {ImageFrame});
    sent.Valid() && exists given: nat :: given < subs.image && ReleasedBy(a, sent, b, given)
  }

  predicate ReleasedBy(a: Adapter, sent: Adapter, b: Buffer, given: nat)
    requires sent.Valid() && b in sent.capture
  {
    b in ReturnFrames(sent, b, ImageFrame, given).releases - a.releases
  }

  /** The buffer of a picture is given up while a subscriber still reads it exactly if several subscribers got it. */
  lemma PictureIsReleasedWhileHeldExactlyIf(a: Adapter, subs: Subscriptions, b: Buffer)
    requires a.Valid() && !b.Null? && b in a.capture && subs.image > 0
    ensures ReleasedWhileHeld(a, subs, b) <==> subs.image > 1
  {
    var sent := WithInitialCounts(a, subs, b, {ImageFrame});
    InitialCountsKeepValid(a, subs, b, {ImageFrame});
    forall given: nat ensures ReleasedBy(a, sent, b, given) <==> given > 0 {
      PictureIsReleasedOnFirstReturn(a, subs, b, given);
    }
    assert ReleasedBy(a, sent, b, 1);
  }

  // --- Recording ---

  function StartVideoCapture(a: Adapter): (Adapter, Status) {
    if a.recording then (a, NoInit)
    else (a.(recording := true, video := a.video + map b | b in a.preview :: 0), NoError)
  }

  /** The buffers the driver gets back when recording stops: those whose only outstanding
      return is a single video one. */
  function Reclaimed(a: Adapter): set<Buffer>
    requires a.Valid()
  {
    set b | b in a.video && !b.Null? && a.video[b] == 1 && a.preview[b] == 0
  }

  /** What returning one buffer on the recorder's behalf comes to. */
  function Reclaim(a: Adapter, b: Buffer): Adapter
    requires a.Valid() && b in a.video
  {
    a.(video := if b.Null? || a.video[b] == 0 then a.video else a.video[b := a.video[b] - 1],
       fills := if b in Reclaimed(a) then a.fills + multiset{b} else a.fills)
  }

  lemma ReclaimIsAReturn(a: Adapter, b: Buffer)
    requires a.Valid() && a.recording && b in a.video
    ensures Reclaim(a, b) == if a.video[b] > 0 then ReturnFrame(a, b, VideoFrameSync) else a
  {
  }

  function StopVideoCapture(a: Adapter): (Adapter, Status)
    requires a.Valid()
  {
    if !a.recording then (a, NoInit)
    else (a.(recording := false, video := map[], fills := a.fills + multiset(Reclaimed(a))), NoError)
  }

  /** Some of the buffers have been taken back on the recorder's behalf, and `todo` have not. */
  ghost predicate PartlyReclaimed(start: Adapter, todo: set<Buffer>, now: Adapter)
    requires start.Valid()
  {
    && now.Valid() && todo <= start.video.Keys
    && now == start.(video := now.video, fills := start.fills + multiset(Reclaimed(start) - todo))
    && forall b <- todo :: b in now.video && now.video[b] == start.video[b]
  }

  lemma ReclaimOneMore(start: Adapter, todo: set<Buffer>, now: Adapter, b: Buffer, next: Adapter)
    requires start.Valid() && start.recording && PartlyReclaimed(start, todo, now)
    requires b in todo && next == Reclaim(now, b) && next.Valid()
    ensures PartlyReclaimed(start, todo - {b}, next)
  {
    assert b in Reclaimed(now) <==> b in Reclaimed(start);
    if b in Reclaimed(start) {
      assert Reclaimed(start) - (todo - {b}) == (Reclaimed(start) - todo) + {b};
    } else {
      assert Reclaimed(start) - (todo - {b}) == Reclaimed(start) - todo;
    }
  }

  lemma NothingReclaimed(start: Adapter)
    requires start.Valid()
    ensures PartlyReclaimed(start, start.video.Keys, start)
  {
    assert Reclaimed(start) - start.video.Keys == {};
  }

  // --- Commands ---

  /** The counts a use-buffers command installs once the state machine accepts it. */
  function WithBuffers(a: Adapter, op: Command, d: Descriptor): Adapter {
    var counts := InitialCounts(d.buffers, d.maxQueueable);
    if op.UseBuffersPreview? then a.(preview := counts)
    else if op.UseBuffersPreviewData? then a.(data := Flags(counts))
    else a.(capture := Flags(counts))
  }

  /** A command that runs `work` if the state machine accepts it, and then moves to the
      next state if the work succeeded. */
  function Transact(a: Adapter, op: Command, work: (Adapter, Status)): (Adapter, Status) {
    match Transition(a.state, op)
    case None => (a, InvalidOperation)
    case Some(next) => if work.1.NoError? then (work.0.(state := next), NoError) else work
  }

  /** The use-buffers commands report what their hook says, accepted or not. */
  function UseBuffers(a: Adapter, op: Command, d: Descriptor, hook: Status): (Adapter, Status) {
    match Transition(a.state, op)
    case None => (a, hook)
    case Some(next) =>
      var loaded := WithBuffers(a, op, d);
      (if hook.NoError? then loaded.(state := next) else loaded, hook)
  }

  /** The counts are installed first, and then the state moves if all went well. */
  lemma UseBuffersOutcome(a: Adapter, op: Command, d: Descriptor, hook: Status, loaded: Adapter, r: Adapter)
    requires loaded == if Transition(a.state, op).Some? then WithBuffers(a, op, d) else a
    requires r == loaded.(state := if hook.NoError? then NextOrSame(a.state, op) else a.state)
    ensures UseBuffers(a, op, d, hook) == (r, hook)
  {
  }

  /** What `sendCommand` does. */
  function Execute(a: Adapter, op: Command, args: Arguments): (Adapter, Status)
    requires a.Valid()
  {
    match op
    case UseBuffersPreview | UseBuffersPreviewData | UseBuffersImageCapture => (
      match args.descriptor
      case None => (a, InvalidArgument)
      case Some(d) => UseBuffers(a, op, d, args.hook))
    case PerformAutofocus => if a.state.AutoFocus? then (a, NoError) else Transact(a, op, (a, args.hook))
    case StartVideo => Transact(a, op, StartVideoCapture(a))
    case StopVideo => Transact(a, op, StopVideoCapture(a))
    case QueryResolutionPreview | QueryBufferSizeImageCapture | QueryBufferSizePreviewData =>
      Transact(a, op, (a, if args.frame then args.hook else InvalidArgument))
    case StartFd | StopFd | SwitchToExecuting | DisableMirror => (a, args.hook)
    case FocusMoveMsg => (a.(focusMove := true), NoError)
    case SetTimeout | CancelTimeout | TimeoutExpired | Apk => (a, NoError)
    case _ => Transact(a, op, (a, args.hook))
  }

  predicate UsesBuffers(op: Command) {
    op.UseBuffersPreview? || op.UseBuffersPreviewData? || op.UseBuffersImageCapture?
  }

  /** Commands that fill in a frame of the caller and fail without one. */
  predicate Queries(op: Command) {
    op.QueryResolutionPreview? || op.QueryBufferSizeImageCapture? || op.QueryBufferSizePreviewData?
  }

  /** Commands that bypass the state machine. */
  predicate Unguarded(op: Command) {
    op.StartFd? || op.StopFd? || op.SwitchToExecuting? || op.DisableMirror? || op.FocusMoveMsg?
    || op.SetTimeout? || op.CancelTimeout? || op.TimeoutExpired? || op.Apk?
  }

  function UnguardedStatus(op: Command, hook: Status): Status {
    if op.StartFd? || op.StopFd? || op.SwitchToExecuting? || op.DisableMirror? then hook else NoError
  }

  /** What the branches come to, kind by kind. */
  lemma ExecuteByKind(a: Adapter, op: Command, args: Arguments)
    requires a.Valid()
    ensures UsesBuffers(op) ==>
              Execute(a, op, args)
              == if args.descriptor.None? then (a, InvalidArgument) else UseBuffers(a, op, args.descriptor.value, args.hook)
    ensures op.StartVideo? || op.StopVideo? ==> Execute(a, op, args) == Execute(a, op, Arguments(None, false, NoError))
    ensures Unguarded(op) ==>
              Execute(a, op, args) == (a.(focusMove := a.focusMove || op.FocusMoveMsg?), UnguardedStatus(op, args.hook))
    ensures op.PerformAutofocus? && a.state.AutoFocus? ==> Execute(a, op, args) == (a, NoError)
  {
  }

  lemma ExecuteHook(a: Adapter, op: Command, args: Arguments)
    requires a.Valid() && !UsesBuffers(op) && !op.StartVideo? && !op.StopVideo? && !Unguarded(op)
    requires !(op.PerformAutofocus? && a.state.AutoFocus?)
    ensures Execute(a, op, args) == Transact(a, op, (a, if args.frame || !Queries(op) then args.hook else InvalidArgument))
  {
  }

  ghost predicate MovesByTheTable(a: Adapter, op: Command, r: Adapter, status: Status) {
    && (r.state != a.state ==> Transition(a.state, op) == Some(r.state) && status.NoError?)
    && (Transition(a.state, op).None? && !op.FocusMoveMsg? ==> r == a)
    && (Transition(a.state, op).Some? && status.NoError? ==> r.state == Transition(a.state, op).value)
  }

  lemma UseBuffersMovesByTheTable(a: Adapter, op: Command, args: Arguments)
    requires a.Valid() && UsesBuffers(op)
    ensures MovesByTheTable(a, op, Execute(a, op, args).0, Execute(a, op, args).1)
  {
    if args.descriptor.Some? {
      assert WithBuffers(a, op, args.descriptor.value).state == a.state;
    }
  }

  lemma VideoCommandMovesByTheTable(a: Adapter, op: Command, args: Arguments)
    requires a.Valid() && (op.StartVideo? || op.StopVideo?)
    ensures MovesByTheTable(a, op, Execute(a, op, args).0, Execute(a, op, args).1)
  {
  }

  lemma HookCommandMovesByTheTable(a: Adapter, op: Command, args: Arguments)
    requires a.Valid() && !UsesBuffers(op) && !op.StartVideo? && !op.StopVideo?
    ensures MovesByTheTable(a, op, Execute(a, op, args).0, Execute(a, op, args).1)
  {
    if Unguarded(op) || (op.PerformAutofocus? && a.state.AutoFocus?) {
      ExecuteByKind(a, op, args);
    } else {
      ExecuteHook(a, op, args);
    }
  }

  /** After any command the state is the old one or the table's, and it is the table's only
      if the command reported success. A rejected command changes nothing. */
  lemma CommandMovesByTheTable(a: Adapter, op: Command, args: Arguments)
    requires a.Valid()
    ensures MovesByTheTable(a, op, Execute(a, op, args).0, Execute(a, op, args).1)
  {
    if UsesBuffers(op) {
      UseBuffersMovesByTheTable(a, op, args);
    } else if op.StartVideo? || op.StopVideo? {
      VideoCommandMovesByTheTable(a, op, args);
    } else {
      HookCommandMovesByTheTable(a, op, args);
    }
  }

  /** A command the state machine rejects nevertheless reports success in exactly these cases. */
  lemma RejectedCommandReportsSuccess(a: Adapter, op: Command, args: Arguments)
    requires a.Valid() && Transition(a.state, op).None?
    ensures Execute(a, op, args).1.NoError? <==>
              || (UsesBuffers(op) && args.descriptor.Some? && args.hook.NoError?)
              || (op.PerformAutofocus? && a.state.AutoFocus?)
              || op.FocusMoveMsg? || op.SetTimeout? || op.CancelTimeout? || op.TimeoutExpired? || op.Apk?
              || ((op.StartFd? || op.StopFd? || op.SwitchToExecuting? || op.DisableMirror?) && args.hook.NoError?)
  {
  }

  /** No state accepts a flush, so its hook, which would send the same command again with
      the state lock held, is never called. */
  lemma FlushIsAlwaysRejected(a: Adapter, args: Arguments)
    requires a.Valid()
    ensures Execute(a, PreviewFlushBuffers, args) == (a, InvalidOperation)
  {
  }

  /** The video commands cannot fail once accepted: the recording flag is as they expect it. */
  lemma AcceptedVideoCommandSucceeds(a: Adapter, op: Command, args: Arguments)
    requires a.Valid() && (op.StartVideo? || op.StopVideo?)
    ensures Execute(a, op, args).1 == if Transition(a.state, op).Some? then NoError else InvalidOperation
    ensures Execute(a, op, args).0.recording == if Transition(a.state, op).Some? then op.StartVideo? else a.recording
  {
  }

  lemma PreviewBuffersKeepValid(a: Adapter, d: Descriptor)
    requires a.Valid() && !a.recording
    ensures WithBuffers(a, UseBuffersPreview, d).Valid()
  {
    InitialCountsAreZeroOrOne(d.buffers, d.maxQueueable);
  }

  lemma WithBuffersKeepsValid(a: Adapter, op: Command, d: Descriptor)
    requires a.Valid() && UsesBuffers(op) && Transition(a.state, op).Some?
    ensures WithBuffers(a, op, d).Valid()
  {
    if op.UseBuffersPreview? {
      PreviewBuffersKeepValid(a, d);
    } else {
      var r := WithBuffers(a, op, d);
      assert r.preview == a.preview && r.video == a.video && r.state == a.state && r.recording == a.recording;
    }
  }

  lemma UseBuffersKeepsValid(a: Adapter, op: Command, d: Descriptor, hook: Status)
    requires a.Valid() && UsesBuffers(op)
    ensures UseBuffers(a, op, d, hook).0.Valid()
  {
    if Transition(a.state, op).Some? {
      VideoStatesAreEnteredAndLeftByVideoCommands(a.state, op);
      WithBuffersKeepsValid(a, op, d);
    }
  }

  lemma GuardedHookEffect(a: Adapter, op: Command, args: Arguments)
    requires a.Valid() && !UsesBuffers(op) && !op.StartVideo? && !op.StopVideo? && !Unguarded(op)
    ensures var r := Execute(a, op, args).0;
            r == a || (Transition(a.state, op).Some? && r == a.(state := Transition(a.state, op).value))
  {
  }

  /** A command whose work is a hook changes at most the state, by the table, and the focus flag. */
  lemma HookCommandEffect(a: Adapter, op: Command, args: Arguments)
    requires a.Valid() && !UsesBuffers(op) && !op.StartVideo? && !op.StopVideo?
    ensures var r := Execute(a, op, args).0;
            && r == a.(state := r.state, focusMove := r.focusMove)
            && (r.state == a.state || Transition(a.state, op) == Some(r.state))
  {
    if !Unguarded(op) {
      GuardedHookEffect(a, op, args);
    }
  }

  lemma VideoCommandKeepsValid(a: Adapter, op: Command, args: Arguments)
    requires a.Valid() && (op.StartVideo? || op.StopVideo?)
    ensures Execute(a, op, args).0.Valid()
  {
    if Transition(a.state, op).Some? {
      VideoStatesAreEnteredAndLeftByVideoCommands(a.state, op);
      if op.StartVideo? {
        assert StartVideoCapture(a).0.video.Keys == a.preview.Keys;
      }
    }
  }

  /** Every command keeps the recording flag, the video states and the video counts in step. */
  lemma CommandKeepsValid(a: Adapter, op: Command, args: Arguments)
    requires a.Valid()
    ensures Execute(a, op, args).0.Valid()
  {
    if UsesBuffers(op) {
      if args.descriptor.Some? {
        UseBuffersKeepsValid(a, op, args.descriptor.value, args.hook);
      }
    } else if op.StartVideo? || op.StopVideo? {
      VideoCommandKeepsValid(a, op, args);
    } else {
      HookCommandEffect(a, op, args);
      var r := Execute(a, op, args).0;
      if r.state != a.state {
        VideoStatesAreEnteredAndLeftByVideoCommands(a.state, op);
      }
      assert (r.recording <==> InVideo(r.state)) && r.preview == a.preview && r.video == a.video;
    }
  }

  /** The auto-focus thread as a step of the adapter. */
  function FinishAutoFocus(a: Adapter): Adapter {
    a.(state := AutoFocusStep(a.state))
  }

  lemma FinishAutoFocusKeepsValid(a: Adapter)
    requires a.Valid()
    ensures FinishAutoFocus(a).Valid()
  {
    if Transition(a.state, CancelAutofocus).Some? {
      VideoStatesAreEnteredAndLeftByVideoCommands(a.state, CancelAutofocus);
    }
  }

  // --- Runs ---

  datatype Event =
    | Commanded(op: Command, args: Arguments)
    | AutoFocusFinished
    | Counted(b: Buffer, subs: Subscriptions, mask: set<FrameType>)
    | Returned(b: Buffer, frameType: FrameType)

  /** Looking up the count of an unknown buffer aborts the process, so it is no event of a run. */
  predicate CanOccur(a: Adapter, e: Event) {
    e.Returned? && !e.b.Null? ==> Known(a, e.b, e.frameType)
  }

  function AfterEvent(a: Adapter, e: Event): Adapter
    requires a.Valid() && CanOccur(a, e)
  {
    match e
    case Commanded(op, args) => Execute(a, op, args).0
    case AutoFocusFinished => FinishAutoFocus(a)
    case Counted(b, subs, mask) => WithInitialCounts(a, subs, b, mask)
    case Returned(b, frameType) => ReturnFrame(a, b, frameType)
  }

  lemma EventKeepsValid(a: Adapter, e: Event)
    requires a.Valid() && CanOccur(a, e)
    ensures AfterEvent(a, e).Valid()
  {
    match e
    case Commanded(op, args) => CommandKeepsValid(a, op, args);
    case AutoFocusFinished => FinishAutoFocusKeepsValid(a);
    case Counted(b, subs, mask) => InitialCountsKeepValid(a, subs, b, mask);
    case Returned(b, frameType) =>
      if !b.Null? {
        ReturnFrameKeepsValid(a, b, frameType);
      }
  }

  /**
   The adapter after a run of events, or None if one of them could not happen. Whatever
   commands, auto-focus threads, dispatches and returns follow one another: the
   adapter records exactly in the video states, has video counts exactly for its preview
   buffers while recording and none otherwise, and no count is negative.
   */
  function RunEvents(a: Adapter, events: seq<Event>): (end: Option<Adapter>)
    requires a.Valid()
    ensures end.Some? ==> end.value.Valid()
    decreases |events|
  {
    if events == [] then Some(a)
    else if !CanOccur(a, events[0]) then None
    else
      EventKeepsValid(a, events[0]);
      RunEvents(AfterEvent(a, events[0]), events[1..])
  }
}
