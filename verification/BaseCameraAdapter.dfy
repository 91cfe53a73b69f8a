/**
 The camera adapter object (camera/BaseCameraAdapter.cpp). Its methods follow the
 source step by step; each is proved against the function of CameraAdapterModel
 that says what it does as a whole.
 */
module CameraAdapter {
  import opened Wrappers
  import opened AdapterStates
  import opened CameraAdapterModel
  import opened AdapterEffects
  import opened CameraRollback
  import opened FrameDispatch
  import opened FrameSending

  class BaseCameraAdapter {
    var adapterState: AdapterState
    var nextState: AdapterState
    var locked: bool  // the state lock, held from setState to commitState or rollbackState
    var recording: bool
    var previewBuffersAvailable: map<Buffer, int>
    var videoBuffersAvailable: map<Buffer, int>
    var captureBuffersAvailable: map<Buffer, bool>
    var previewDataBuffersAvailable: map<Buffer, bool>
    var focusMoveEnabled: bool
    ghost var fills: multiset<Buffer>
    ghost var releases: multiset<Buffer>

    ghost function View(): Adapter
      reads this
    {
      Adapter(adapterState, recording, previewBuffersAvailable, videoBuffersAvailable,
              captureBuffersAvailable, previewDataBuffersAvailable, focusMoveEnabled, fills, releases)
    }

    /** Between two commands the lock is free, and the next state is the current one; without
        that, the commit that follows a rejected command would move the state. */
    ghost predicate Idle()
      reads this
    {
      !locked && nextState == adapterState && View().Valid()
    }

    /** The source leaves the next state unset; here it starts as the current one. */
    constructor ()
      ensures Idle()
      ensures View() == Adapter(Initialized, false, map[], map[], map[], map[], false, multiset{}, multiset{})
    {
      adapterState, nextState, locked, recording := Initialized, Initialized, false, false;
      previewBuffersAvailable, videoBuffersAvailable := map[], map[];
      captureBuffersAvailable, previewDataBuffersAvailable := map[], map[];
      focusMoveEnabled := false;
      fills, releases := multiset{}, multiset{};
    }

    // --- State transitions ---

    method SetState(op: Command) returns (ret: Status)
      requires !locked
      modifies this`locked, this`nextState
      ensures locked
      ensures ret == if Transition(old(adapterState), op).Some? then NoError else InvalidOperation
      ensures ret.NoError? ==> Transition(old(adapterState), op) == Some(nextState)
      ensures !ret.NoError? ==> nextState == old(nextState)
    {
      locked := true;
      match Transition(adapterState, op)
      case Some(next) =>
        nextState := next;
        ret := NoError;
      case None =>
        ret := InvalidOperation;
    }

    method CommitState() returns (ret: Status)
      requires locked
      modifies this`locked, this`adapterState
      ensures !locked && adapterState == nextState && ret == NoError
    {
      adapterState := nextState;
      locked := false;
      ret := NoError;
    }

    method RollbackState() returns (ret: Status)
      requires locked
      modifies this`locked, this`nextState
      ensures !locked && nextState == adapterState && ret == NoError
    {
      nextState := adapterState;
      locked := false;
      ret := NoError;
    }

    method GetState() returns (state: AdapterState)
      requires !locked
      ensures state == adapterState
    {
      state := adapterState;
    }

    /** The body of the auto-focus thread, which commits without looking at setState's answer. */
    method BeginAutoFocusThread()
      requires Idle()
      modifies this
      ensures Idle() && View() == FinishAutoFocus(old(View()))
    {
      FinishAutoFocusKeepsValid(View());
      var ignored := SetState(CancelAutofocus);
      ignored := CommitState();
    }

    /** `n` auto-focus threads finish one after the other. */
    method FinishPendingAutoFocus(n: nat)
      requires Idle()
      modifies this
      ensures Idle() && View() == FinishAutoFocusTimes(old(View()), n)
    {
      for i := 0 to n
        invariant Idle()
        invariant AutoFocusSteps(old(adapterState), n) == AutoFocusSteps(adapterState, n - i)
        invariant View() == old(View()).(state := adapterState)
      {
        BeginAutoFocusThread();
      }
    }

    // --- Reference counts ---

    method GetFrameRefCount(b: Buffer, frameType: FrameType) returns (count: int)
      requires Known(View(), b, frameType)
      ensures count == RefCount(View(), b, frameType)
    {
      count := -1;
      match frameType
      case ImageFrame | RawFrame => count := if captureBuffersAvailable[b] then 1 else 0;
      case PreviewFrameSync | SnapshotFrame => count := previewBuffersAvailable[b];
      case FrameDataSync => count := if previewDataBuffersAvailable[b] then 1 else 0;
      case VideoFrameSync =>
        if videoBuffersAvailable != map[] {
          count := videoBuffersAvailable[b];
        }
      case _ =>
    }

    method SetFrameRefCount(b: Buffer, frameType: FrameType, count: int)
      modifies this`captureBuffersAvailable, this`previewBuffersAvailable
      modifies this`previewDataBuffersAvailable, this`videoBuffersAvailable
      ensures View() == WithRefCount(old(View()), b, frameType, count)
    {
      match frameType
      case ImageFrame | RawFrame =>
        if b in captureBuffersAvailable {
          captureBuffersAvailable := captureBuffersAvailable[b := count != 0];
        }
      case PreviewFrameSync | SnapshotFrame =>
        if b in previewBuffersAvailable {
          previewBuffersAvailable := previewBuffersAvailable[b := count];
        }
      case FrameDataSync =>
        if b in previewDataBuffersAvailable {
          previewDataBuffersAvailable := previewDataBuffersAvailable[b := count != 0];
        }
      case VideoFrameSync =>
        if b in videoBuffersAvailable {
          videoBuffersAvailable := videoBuffersAvailable[b := count];
        }
      case _ =>
    }

    /** One turn per frame type, in the order of the mask bits. */
    method SetInitFrameRefCount(b: Buffer, subs: Subscriptions, mask: set<FrameType>) returns (ret: Status)
      requires View().Valid()
      modifies this`captureBuffersAvailable, this`previewBuffersAvailable
      modifies this`previewDataBuffersAvailable, this`videoBuffersAvailable
      ensures ret == if b.Null? then InvalidArgument else NoError
      ensures View() == if b.Null? then old(View()) else WithInitialCounts(old(View()), subs, b, mask)
    {
      if b.Null? {
        return InvalidArgument;
      }
      ghost var start := View();
      ghost var counted: set<FrameType> := {};
      var i := 0;
      while i < |FRAME_TYPES|
        invariant 0 <= i <= |FRAME_TYPES|
        invariant forall t :: t in counted <==> t in mask && t in FRAME_TYPES[..i]
        invariant View() == WithInitialCounts(start, subs, b, counted)
      {
        var frameType := FRAME_TYPES[i];
        if frameType in mask {
          InitialCountsGrow(start, subs, b, counted, frameType);
          SetFrameRefCount(b, frameType, SubscribersOf(subs, frameType));
          counted := counted + {frameType};
        }
        assert FRAME_TYPES[..i + 1] == FRAME_TYPES[..i] + [frameType];
        i := i + 1;
      }
      AllFrameTypesListed();
      assert FRAME_TYPES[..i] == FRAME_TYPES;
      assert counted == mask;
      ret := NoError;
    }

    static lemma AllFrameTypesListed()
      ensures forall t: FrameType :: t in FRAME_TYPES
    {
      forall t: FrameType ensures t in FRAME_TYPES {
        assert t == FRAME_TYPES[0] || t == FRAME_TYPES[1] || t == FRAME_TYPES[2] || t == FRAME_TYPES[3]
            || t == FRAME_TYPES[4] || t == FRAME_TYPES[5] || t == FRAME_TYPES[6] || t == FRAME_TYPES[7]
            || t == FRAME_TYPES[8] || t == FRAME_TYPES[9];
      }
    }

    /** The two loops of the use-buffers commands. */
    static method LoadCounts(d: Descriptor) returns (counts: map<Buffer, int>)
      requires d.Valid()
      ensures counts == InitialCounts(d.buffers, d.maxQueueable)
    {
      counts := map[];
      for i := 0 to d.maxQueueable
        invariant counts == InitialCounts(d.buffers[..i], d.maxQueueable)
      {
        assert d.buffers[..i + 1][..i] == d.buffers[..i];
        counts := counts[d.buffers[i] := 0];
      }
      for i := d.maxQueueable to |d.buffers|
        invariant counts == InitialCounts(d.buffers[..i], d.maxQueueable)
      {
        assert d.buffers[..i + 1][..i] == d.buffers[..i];
        counts := counts[d.buffers[i] := 1];
      }
      assert d.buffers[..|d.buffers|] == d.buffers;
    }

    // --- Frames ---

    method ReturnFrame(b: Buffer, frameType: FrameType)
      requires View().Valid()
      requires !b.Null? ==> Known(View(), b, frameType)
      modifies this`captureBuffersAvailable, this`previewBuffersAvailable
      modifies this`previewDataBuffersAvailable, this`videoBuffersAvailable, this`fills, this`releases
      ensures View() == CameraAdapterModel.ReturnFrame(old(View()), b, frameType)
      ensures View().Valid()
    {
      if b.Null? {
        return;
      }
      ReturnFrameKeepsValid(View(), b, frameType);
      var refCount := GetFrameRefCount(b, frameType);
      if 0 < refCount {
        refCount := refCount - 1;
        SetFrameRefCount(b, frameType, refCount);
        if recording && frameType.VideoFrameSync? {
          var others := GetFrameRefCount(b, PreviewFrameSync);
          refCount := refCount + others;
        } else if recording && (frameType.PreviewFrameSync? || frameType.SnapshotFrame?) {
          var others := GetFrameRefCount(b, VideoFrameSync);
          refCount := refCount + others;
        }
      } else {
        return;
      }
      if refCount == 0 {
        FillThisBuffer(b, frameType);
      }
    }

    /** The hook that queues a buffer with the driver; only the call itself is recorded. */
    ghost method FillThisBuffer(b: Buffer, frameType: FrameType)
      modifies this`fills, this`releases
      ensures View() == (if OnPreviewBuffer(frameType) then old(View()).(fills := old(fills) + multiset{b})
                         else old(View()).(releases := old(releases) + multiset{b}))
    {
      if OnPreviewBuffer(frameType) {
        fills := fills + multiset{b};
      } else {
        releases := releases + multiset{b};
      }
    }

    /**
     `__sendFrameToSubscribers`: sends one frame to the subscribers of one of its types, and returns it at
     once for every count that found no taker. Clients may return the frame from within their callback.
     */
    method SendToSubscribers(b: Buffer, frameType: FrameType, audience: Audience, queueEmpty: bool)
      returns (ret: Status, calls: seq<int>)
      requires View().Valid() && !b.Null? && Known(View(), b, frameType)
      modifies this`captureBuffersAvailable, this`previewBuffersAvailable
      modifies this`previewDataBuffersAvailable, this`videoBuffersAvailable, this`fills, this`releases
      ensures ret == DispatchStatus(old(View()), b, frameType, audience, queueEmpty)
      ensures !ret.NoError? ==> calls == [] && View() == old(View())
      ensures ret.NoError? ==>
                && IsCallLog(calls, Cookies(audience.history(0)), audience.history)
                && IsComplete(calls, Cookies(audience.history(0)), audience.history)
                && View() == AfterDispatch(old(View()), b, frameType, audience.returnsAtOnce, calls)
      ensures var onPreviewBuffer := frameType.PreviewFrameSync? || frameType.SnapshotFrame? || frameType.VideoFrameSync?;
              ret == if (onPreviewBuffer && queueEmpty) || RefCount(old(View()), b, frameType) <= 0
                        || RefCount(old(View()), b, frameType) > |audience.history(0)| then InvalidArgument else NoError
      ensures ret.NoError? ==>
                var c, n := RefCount(old(View()), b, frameType), |set k: nat | k < |calls| && audience.returnsAtOnce(k)|;
                TakenDown(old(View()), b, frameType, c, Max(0, c - n - Max(0, c - |calls|)), View())
      ensures View().Valid()
    {
      calls := [];
      if OnPreviewBuffer(frameType) && queueEmpty {
        return InvalidArgument, calls;
      }
      // As an unsigned count, -1 would exceed any list size.
      var refCount := GetFrameRefCount(b, frameType);
      if refCount <= 0 || |audience.history(0)| == 0 || refCount > |audience.history(0)| {
        return InvalidArgument, calls;
      }
      var left;
      calls, left := Deliver(audience.history, refCount);
      GiveBack(b, frameType, audience.returnsAtOnce, calls, left);
      ret := NoError;
    }

    /** All returns of a dispatch: those made within its calls, of which its loop sees nothing because it has read the count
        before, and one for every count left over. */
    method GiveBack(b: Buffer, frameType: FrameType, returnsAtOnce: nat -> bool, calls: seq<int>, left: nat)
      requires View().Valid() && IsCounted(View(), b, frameType) && left == Untaken(RefCount(View(), b, frameType), calls)
      modifies this`captureBuffersAvailable, this`previewBuffersAvailable
      modifies this`previewDataBuffersAvailable, this`videoBuffersAvailable, this`fills, this`releases
      ensures View() == AfterDispatch(old(View()), b, frameType, returnsAtOnce, calls)
      ensures var c, n := RefCount(old(View()), b, frameType), |set k: nat | k < |calls| && returnsAtOnce(k)|;
              TakenDown(old(View()), b, frameType, c, Max(0, c - n - Max(0, c - |calls|)), View())
      ensures View().Valid()
    {
      DispatchTakesDownCount(View(), b, frameType, returnsAtOnce, calls);
      var atOnce := CountReturns(returnsAtOnce, |calls|);
      ReturnAll(b, frameType, returnsAtOnce, calls, atOnce + left);
    }

    method ReturnAll(b: Buffer, frameType: FrameType, ghost returnsAtOnce: nat -> bool, ghost calls: seq<int>, times: nat)
      requires View().Valid() && !b.Null? && Known(View(), b, frameType)
      requires times == Returns(RefCount(View(), b, frameType), returnsAtOnce, calls)
      modifies this`captureBuffersAvailable, this`previewBuffersAvailable
      modifies this`previewDataBuffersAvailable, this`videoBuffersAvailable, this`fills, this`releases
      ensures View() == AfterDispatch(old(View()), b, frameType, returnsAtOnce, calls) && View().Valid()
    {
      ReturnTimes(b, frameType, times);
    }

    static method CountReturns(returnsAtOnce: nat -> bool, calls: nat) returns (n: nat)
      ensures n == ReturnedAtOnce(returnsAtOnce, calls)
    {
      n := 0;
      for k := 0 to calls
        invariant n == ReturnedAtOnce(returnsAtOnce, k)
      {
        if returnsAtOnce(k) {
          n := n + 1;
        }
      }
    }

    /**
     The loop over the bits of the frame's mask. It ends with the first dispatch that is an error, and
     the types of the later bits are not sent.
     */
    method SendFrameToSubscribers(b: Buffer, mask: set<FrameType>, audiences: Audiences, queueEmpty: bool)
      returns (ret: Status, ghost logs: seq<seq<int>>)
      requires View().Valid() && !b.Null? && KnownFor(View(), b, Masked(FRAME_TYPES, mask))
      modifies this`captureBuffersAvailable, this`previewBuffersAvailable
      modifies this`previewDataBuffersAvailable, this`videoBuffersAvailable, this`fills, this`releases
      ensures Sending(View(), ret, |logs|) == Sent(old(View()), b, Masked(FRAME_TYPES, mask), audiences, queueEmpty, logs)
      ensures RightLogs(old(View()), b, Masked(FRAME_TYPES, mask), audiences, queueEmpty, logs)
      ensures View().Valid()
    {
      ghost var start := View();
      NothingSentYet(start, b, mask, audiences, queueEmpty);
      ret, logs := NoError, [];
      var i := 0;
      while i < |FRAME_TYPES| && ret.NoError?
        invariant 0 <= i <= |FRAME_TYPES| && View().Valid()
        invariant SentUpTo(i, start, b, mask, audiences, queueEmpty, logs, Sending(View(), ret, |logs|))
      {
        ret, logs := SendNextBit(i, b, mask, audiences, queueEmpty, start, logs);
        i := i + 1;
      }
      SentUpToEnd(i, start, b, mask, audiences, queueEmpty, logs, Sending(View(), ret, |logs|));
    }

    /** One turn of that loop: a type that is not in the mask is passed over. */
    method SendNextBit(i: nat, b: Buffer, mask: set<FrameType>, audiences: Audiences, queueEmpty: bool,
                       ghost start: Adapter, ghost logs: seq<seq<int>>)
      returns (ret: Status, ghost longer: seq<seq<int>>)
      requires i < |FRAME_TYPES| && View().Valid() && !b.Null?
      requires start.Valid() && KnownFor(start, b, Masked(FRAME_TYPES, mask))
      requires SentUpTo(i, start, b, mask, audiences, queueEmpty, logs, Sending(View(), NoError, |logs|))
      modifies this`captureBuffersAvailable, this`previewBuffersAvailable
      modifies this`previewDataBuffersAvailable, this`videoBuffersAvailable, this`fills, this`releases
      ensures SentUpTo(i + 1, start, b, mask, audiences, queueEmpty, longer, Sending(View(), ret, |longer|))
      ensures View().Valid()
    {
      ret, longer := NoError, logs;
      var frameType := FRAME_TYPES[i];
      NextBitIsKnown(i, start, b, mask);
      if frameType in mask {
        ret, longer := SendNextType(b, frameType, audiences(frameType), queueEmpty, start, Masked(FRAME_TYPES[..i], mask),
                                    audiences, logs);
      }
    }

    /** One type of the mask; those without subscriber lists are passed over. */
    method SendNextType(b: Buffer, frameType: FrameType, audience: Audience, queueEmpty: bool, ghost start: Adapter,
                        ghost before: seq<FrameType>, ghost audiences: Audiences, ghost logs: seq<seq<int>>)
      returns (ret: Status, ghost longer: seq<seq<int>>)
      requires View().Valid() && !b.Null? && audience == audiences(frameType)
      requires start.Valid() && KnownFor(start, b, before) && KnownFor(start, b, before + [frameType])
      requires Underway(start, b, before, audiences, queueEmpty, logs, View())
      modifies this`captureBuffersAvailable, this`previewBuffersAvailable
      modifies this`previewDataBuffersAvailable, this`videoBuffersAvailable, this`fills, this`releases
      ensures Sending(View(), ret, |longer|) == Sent(start, b, before + [frameType], audiences, queueEmpty, longer)
      ensures RightLogs(start, b, before + [frameType], audiences, queueEmpty, longer)
      ensures frameType.PreviewFrame? || frameType.ImageFrameSync? || frameType.VideoFrame? || frameType.FrameData? ==>
                ret.NoError? && longer == logs && View() == old(View())
      ensures frameType.ImageFrame? || frameType.RawFrame? || frameType.PreviewFrameSync? || frameType.SnapshotFrame?
              || frameType.VideoFrameSync? || frameType.FrameDataSync? ==>
                if ret.NoError? then |longer| == |logs| + 1 else longer == logs && View() == old(View())
      ensures View().Valid()
    {
      ghost var now := View();
      ret, longer := NoError, logs;
      if !HasSubscribers(frameType) {
        UnsentType(start, b, before, frameType, audiences, queueEmpty, logs, now);
        return;
      }
      NextTypeIsKnown(start, b, before, frameType, audiences, queueEmpty, logs, now);
      var calls;
      ret, calls := SendToSubscribers(b, frameType, audience, queueEmpty);
      if ret.NoError? {
        longer := logs + [calls];
        SentType(start, b, before, frameType, audiences, queueEmpty, logs, now, calls);
      } else {
        FailedType(start, b, before, frameType, audiences, queueEmpty, logs, now);
      }
    }

    method ReturnTimes(b: Buffer, frameType: FrameType, times: nat)
      requires View().Valid() && !b.Null? && Known(View(), b, frameType)
      modifies this`captureBuffersAvailable, this`previewBuffersAvailable
      modifies this`previewDataBuffersAvailable, this`videoBuffersAvailable, this`fills, this`releases
      ensures View() == ReturnFrames(old(View()), b, frameType, times)
      ensures View().Valid()
    {
      for k := 0 to times
        invariant View().Valid() && Known(View(), b, frameType)
        invariant ReturnFrames(old(View()), b, frameType, times) == ReturnFrames(View(), b, frameType, times - k)
      {
        ReturnFrameKeepsValid(View(), b, frameType);
        ReturnFrame(b, frameType);
      }
    }

    // --- Recording ---

    method StartVideoCapture() returns (ret: Status)
      modifies this`recording, this`videoBuffersAvailable
      ensures (View(), ret) == CameraAdapterModel.StartVideoCapture(old(View()))
    {
      if recording {
        return NoInit;
      }
      ghost var before := videoBuffersAvailable;
      var todo := previewBuffersAvailable.Keys;
      while todo != {}
        invariant todo <= previewBuffersAvailable.Keys
        invariant videoBuffersAvailable == before + map b | b in previewBuffersAvailable.Keys - todo :: 0
      {
        var b :| b in todo;
        videoBuffersAvailable := videoBuffersAvailable[b := 0];
        todo := todo - {b};
      }
      assert previewBuffersAvailable.Keys - todo == previewBuffersAvailable.Keys;
      recording := true;
      ret := NoError;
    }

    method ReclaimBuffer(b: Buffer)
      requires View().Valid() && recording && b in videoBuffersAvailable
      modifies this`videoBuffersAvailable, this`fills, this`releases
      modifies this`captureBuffersAvailable, this`previewBuffersAvailable, this`previewDataBuffersAvailable
      ensures View() == Reclaim(old(View()), b) && View().Valid()
    {
      ReclaimIsAReturn(View(), b);
      var count := GetFrameRefCount(b, VideoFrameSync);
      if count > 0 {
        ReturnFrame(b, VideoFrameSync);
      }
    }

    /** Returns, on the recorder's behalf, every buffer it still holds; once each. */
    method StopVideoCapture() returns (ret: Status)
      requires View().Valid()
      modifies this`recording, this`videoBuffersAvailable, this`fills, this`releases
      modifies this`captureBuffersAvailable, this`previewBuffersAvailable, this`previewDataBuffersAvailable
      ensures (View(), ret) == CameraAdapterModel.StopVideoCapture(old(View()))
    {
      if !recording {
        return NoInit;
      }
      ghost var start := View();
      var todo := videoBuffersAvailable.Keys;
      NothingReclaimed(start);
      while todo != {}
        invariant PartlyReclaimed(start, todo, View())
      {
        var b :| b in todo;
        ghost var now := View();
        ReclaimBuffer(b);
        ReclaimOneMore(start, todo, now, b, View());
        todo := todo - {b};
      }
      assert Reclaimed(start) - todo == Reclaimed(start);
      videoBuffersAvailable := map[];
      recording := false;
      ret := NoError;
    }

    // --- Commands ---

    /** Ends a command: commits if all went well, otherwise rolls the state back. */
    method Finish(status: Status) returns (ret: Status)
      requires locked
      modifies this`locked, this`adapterState, this`nextState
      ensures !locked && nextState == adapterState && ret == status
      ensures adapterState == if status.NoError? then old(nextState) else old(adapterState)
    {
      ret := status;
      if status.NoError? {
        var committed := CommitState();
      } else {
        var rolledBack := RollbackState();
      }
    }

    method SendCommand(op: Command, args: Arguments) returns (ret: Status)
      requires Idle() && args.Valid()
      modifies this
      ensures Idle()
      ensures (View(), ret) == Execute(old(View()), op, args)
    {
      ret := NoError;
      ExecuteByKind(View(), op, args);
      if UsesBuffers(op) {
        if args.descriptor.None? {
          return InvalidArgument;
        }
        ret := SendUseBuffers(op, args.descriptor.value, args.hook);
      } else if op.PerformAutofocus? {
        var state := GetState();
        if !state.AutoFocus? {
          ExecuteHook(View(), op, args);
          ret := SendHookCommand(op, args.hook);
        }
      } else if op.StartVideo? || op.StopVideo? {
        ret := SendVideoCommand(op);
      } else if Unguarded(op) {
        ret := SendUnguarded(op, args.hook);
      } else {
        ExecuteHook(View(), op, args);
        ret := SendHookCommand(op, if args.frame || !Queries(op) then args.hook else InvalidArgument);
      }
    }

    /** The commands that bypass the state machine. */
    method SendUnguarded(op: Command, hook: Status) returns (ret: Status)
      requires View().Valid() && Unguarded(op)
      modifies this`focusMoveEnabled
      ensures View() == old(View()).(focusMove := old(focusMoveEnabled) || op.FocusMoveMsg?)
      ensures ret == UnguardedStatus(op, hook)
    {
      ret := NoError;
      if op.FocusMoveMsg? {
        focusMoveEnabled := true;
      } else if op.StartFd? || op.StopFd? || op.SwitchToExecuting? || op.DisableMirror? {
        ret := hook;
      }
    }

    /** The branch shared by the commands whose whole work is one overridable hook. */
    method SendHookCommand(op: Command, hook: Status) returns (ret: Status)
      requires Idle() && !op.StartVideo? && !op.StopVideo?
      modifies this`locked, this`adapterState, this`nextState
      ensures Idle()
      ensures (View(), ret) == Transact(old(View()), op, (old(View()), hook))
    {
      if Transition(adapterState, op).Some? {
        VideoStatesAreEnteredAndLeftByVideoCommands(adapterState, op);
      }
      ret := SetState(op);
      if ret.NoError? {
        ret := hook;
      }
      ret := Finish(ret);
    }

    method SendVideoCommand(op: Command) returns (ret: Status)
      requires Idle() && (op.StartVideo? || op.StopVideo?)
      modifies this
      ensures Idle()
      ensures (View(), ret) == Execute(old(View()), op, Arguments(None, false, NoError))
    {
      ret := SetState(op);
      if ret.NoError? {
        if op.StartVideo? {
          ret := StartVideoCapture();
        } else {
          ret := StopVideoCapture();
        }
      }
      ret := Finish(ret);
      assert (View(), ret) == Execute(old(View()), op, Arguments(None, false, NoError));
      assert View().Valid() by { CommandKeepsValid(old(View()), op, Arguments(None, false, NoError)); }
    }

    /** The use-buffers commands call their hook even when the state machine has said no, and
        let its answer replace the error. */
    method SendUseBuffers(op: Command, d: Descriptor, hook: Status) returns (ret: Status)
      requires Idle() && d.Valid() && UsesBuffers(op)
      modifies this
      ensures Idle()
      ensures (View(), ret) == UseBuffers(old(View()), op, d, hook)
    {
      LoadIfAccepted(op, d);
      ret := CommitUseBuffers(op, d, hook, View(), old(View()));
    }

    method LoadIfAccepted(op: Command, d: Descriptor)
      requires Idle() && d.Valid() && UsesBuffers(op)
      modifies this`locked, this`nextState
      modifies this`previewBuffersAvailable, this`previewDataBuffersAvailable, this`captureBuffersAvailable
      ensures locked && nextState == NextOrSame(adapterState, op)
      ensures View() == if Transition(adapterState, op).Some? then WithBuffers(old(View()), op, d) else old(View())
    {
      var accepted := SetState(op);
      if accepted.NoError? {
        InstallCounts(op, d);
      }
    }

    /** What the hook answers decides whether the state moves. */
    method CommitUseBuffers(op: Command, d: Descriptor, hook: Status, ghost loaded: Adapter, ghost start: Adapter)
      returns (ret: Status)
      requires locked && start.Valid() && d.Valid() && UsesBuffers(op) && View() == loaded
      requires start.state == adapterState && nextState == NextOrSame(adapterState, op)
      requires loaded == if Transition(start.state, op).Some? then WithBuffers(start, op, d) else start
      modifies this`locked, this`adapterState, this`nextState
      ensures Idle()
      ensures (View(), ret) == UseBuffers(start, op, d, hook)
    {
      ret := Finish(hook);
      UseBuffersOutcome(start, op, d, hook, loaded, View());
      assert View().Valid() by { UseBuffersKeepsValid(start, op, d, hook); }
    }

    method InstallCounts(op: Command, d: Descriptor)
      requires d.Valid() && UsesBuffers(op)
      modifies this`previewBuffersAvailable, this`previewDataBuffersAvailable, this`captureBuffersAvailable
      ensures View() == WithBuffers(old(View()), op, d)
    {
      var counts := LoadCounts(d);
      if op.UseBuffersPreview? {
        previewBuffersAvailable := counts;
      } else if op.UseBuffersPreviewData? {
        previewDataBuffersAvailable := Flags(counts);
      } else {
        captureBuffersAvailable := Flags(counts);
      }
    }

    // --- Rolling back ---

    /** Between reading the state and sending the command, `between` auto-focus threads may finish. */
    method RollbackToPreviousState(between: nat, hook: Status) returns (ret: Status)
      requires Idle()
      modifies this
      ensures Idle()
      ensures (View(), ret) == PreviousState(old(View()), Turn(0, between, 0, hook))
    {
      var state := GetState();
      if state.Initialized? {
        return NoError;
      }
      match RollbackCommand(state)
      case Some(op) =>
        FinishPendingAutoFocus(between);
        ret := SendCommand(op, Arguments(None, false, hook));
      case None =>
        ret := InvalidOperation;
    }

    /** One turn of the loop below, with the auto-focus threads that finish around it. */
    method RollbackTurn(turn: Turn) returns (ret: Status)
      requires Idle() && !adapterState.Initialized?
      modifies this
      ensures Idle()
      ensures (View(), ret) == Turned(old(View()), turn)
    {
      FinishPendingAutoFocus(turn.before);
      ret := RollbackToPreviousState(turn.between, turn.hook);
      FinishPendingAutoFocus(turn.after);
    }

    method RollbackToInitializedState(turns: nat -> Turn) returns (ret: Status, ghost taken: nat)
      requires Idle()
      modifies this
      ensures Idle()
      ensures (View(), ret, taken) == RollbackLoop(old(View()), turns, 0)
    {
      ret, taken := NoError, 0;
      var i := 0;
      var state := GetState();
      while !state.Initialized? && ret.NoError?
        invariant Idle() && state == adapterState && i == taken
        invariant ret.NoError? ==> RollbackLoop(old(View()), turns, 0) == RollbackLoop(View(), turns, taken)
        invariant !ret.NoError? ==> (View(), ret, taken) == RollbackLoop(old(View()), turns, 0)
        decreases ret.NoError?, Rank(adapterState)
      {
        ret := RollbackTurn(turns(i));
        i, taken := i + 1, taken + 1;
        state := GetState();
      }
    }
  }
}
