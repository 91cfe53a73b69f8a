/**
 The loop of `sendFrameToSubscribers` (camera/BaseCameraAdapter.cpp:1185-1247): one dispatch per type of the frame, in
 the order of the mask bits, up to the first one that is an error.
 */
module FrameSending {
  import opened CameraAdapterModel
  import opened AdapterEffects
  import opened FrameDispatch

  /** The types that have a subscriber list; a frame of another type goes nowhere, which is no error. */
  predicate HasSubscribers(frameType: FrameType) {
    frameType.ImageFrame? || frameType.RawFrame? || frameType.FrameDataSync? || OnPreviewBuffer(frameType)
  }

  /** The adapter knows the buffer as one of every type that is dispatched. */
  ghost predicate KnownFor(a: Adapter, b: Buffer, types: seq<FrameType>) {
    forall t <- types :: HasSubscribers(t) ==> Known(a, b, t)
  }

  /** How a list of subscribers changes while a frame is sent, and which calls give the frame back before they end. */
  datatype Audience = Audience(history: History, returnsAtOnce: nat -> bool)

  /** The audience of each type. */
  type Audiences = FrameType -> Audience

  /** How many of the first `n` calls give the frame back before they end. */
  function ReturnedAtOnce(returnsAtOnce: nat -> bool, n: nat): (m: nat)
    ensures m <= n
  {
    if n == 0 then 0 else ReturnedAtOnce(returnsAtOnce, n - 1) + if returnsAtOnce(n - 1) then 1 else 0
  }

  /** A dispatch is refused without a frame queue, without a count, and for more counts than subscribers. */
  function DispatchStatus(a: Adapter, b: Buffer, frameType: FrameType, audience: Audience, queueEmpty: bool): Status
    requires Known(a, b, frameType)
  {
    var count := RefCount(a, b, frameType);
    if (OnPreviewBuffer(frameType) && queueEmpty) || count <= 0 || count > |audience.history(0)| then InvalidArgument else NoError
  }

  /** The adapter after a dispatch with the given calls: some have given the frame back at once, and every count without a
      taker has been returned. */
  function AfterDispatch(a: Adapter, b: Buffer, frameType: FrameType, returnsAtOnce: nat -> bool, calls: seq<int>): Adapter
    requires a.Valid() && Known(a, b, frameType)
  {
    ReturnFrames(a, b, frameType, Returns(RefCount(a, b, frameType), returnsAtOnce, calls))
  }

  /** How many returns a dispatch makes of `count` counts: those of its calls, and those without a taker. */
  function Returns(count: int, returnsAtOnce: nat -> bool, calls: seq<int>): nat {
    ReturnedAtOnce(returnsAtOnce, |calls|) + Untaken(count, calls)
  }

  /** How many of the counts found no taker. */
  function Untaken(count: int, calls: seq<int>): nat {
    if |calls| < count then count - |calls| else 0
  }

  lemma {:induction false} ReturnedAtOnceIsCount(returnsAtOnce: nat -> bool, n: nat)
    ensures ReturnedAtOnce(returnsAtOnce, n) == |set k: nat | k < n && returnsAtOnce(k)|
  {
    var some := set k: nat | k < n && returnsAtOnce(k);
    if n == 0 {
      assert some == {};
    } else {
      ReturnedAtOnceIsCount(returnsAtOnce, n - 1);
      var fewer := set k: nat | k < n - 1 && returnsAtOnce(k);
      assert some == fewer + if returnsAtOnce(n - 1) then {n - 1} else {};
    }
  }

  /** A dispatch takes the count down by one for every call that returns at once and for every count without a call, and
      gives the buffer up if that is all of it. */
  lemma DispatchTakesDownCount(a: Adapter, b: Buffer, frameType: FrameType, returnsAtOnce: nat -> bool, calls: seq<int>)
    requires a.Valid() && IsCounted(a, b, frameType)
    ensures var c, n := RefCount(a, b, frameType), |set k: nat | k < |calls| && returnsAtOnce(k)|;
            TakenDown(a, b, frameType, c, Max(0, c - n - Max(0, c - |calls|)),
                      AfterDispatch(a, b, frameType, returnsAtOnce, calls))
  {
    var count := RefCount(a, b, frameType);
    ReturnedAtOnceIsCount(returnsAtOnce, |calls|);
    ReturnsTakeDownCount(a, b, frameType, Returns(count, returnsAtOnce, calls));
  }

  /** Once every client that was called has returned the frame, no count is left of it, and the driver has been given
      the buffer unless other counts stand for it. */
  lemma AllCallersReturned(a: Adapter, b: Buffer, frameType: FrameType, returnsAtOnce: nat -> bool, calls: seq<int>)
    requires a.Valid() && IsCounted(a, b, frameType)
    ensures var sent := AfterDispatch(a, b, frameType, returnsAtOnce, calls);
            var toCome := |set k: nat | k < |calls| && !returnsAtOnce(k)|;
            && sent.Valid() && Known(sent, b, frameType)
            && TakenDown(a, b, frameType, RefCount(a, b, frameType), 0, ReturnFrames(sent, b, frameType, toCome))
  {
    var c, sent := RefCount(a, b, frameType), AfterDispatch(a, b, frameType, returnsAtOnce, calls);
    var n, toCome := |set k: nat | k < |calls| && returnsAtOnce(k)|, |set k: nat | k < |calls| && !returnsAtOnce(k)|;
    DispatchTakesDownCount(a, b, frameType, returnsAtOnce, calls);
    CallsReturnNowOrLater(returnsAtOnce, |calls|);
    var left := Max(0, c - n - Max(0, c - |calls|));
    ReturnsTakeDownCount(sent, b, frameType, toCome);
    assert left - toCome <= 0;
    TakenDownTwice(a, b, frameType, c, left, sent, 0, ReturnFrames(sent, b, frameType, toCome));
  }

  lemma CallsReturnNowOrLater(returnsAtOnce: nat -> bool, n: nat)
    ensures |set k: nat | k < n && returnsAtOnce(k)| + |set k: nat | k < n && !returnsAtOnce(k)| == n
  {
    ReturnedAtOnceIsCount(returnsAtOnce, n);
    var later := (k: nat) => !returnsAtOnce(k);
    ReturnedAtOnceIsCount(later, n);
    assert (set k: nat | k < n && later(k)) == set k: nat | k < n && !returnsAtOnce(k);
    NowOrLater(returnsAtOnce, later, n);
  }

  lemma {:induction false} NowOrLater(now: nat -> bool, later: nat -> bool, n: nat)
    requires forall k :: later(k) <==> !now(k)
    ensures ReturnedAtOnce(now, n) + ReturnedAtOnce(later, n) == n
  {
    if n != 0 {
      NowOrLater(now, later, n - 1);
    }
  }

  predicate SameKeys(a: Adapter, r: Adapter) {
    r.capture.Keys == a.capture.Keys && r.preview.Keys == a.preview.Keys
    && r.data.Keys == a.data.Keys && r.video.Keys == a.video.Keys
  }

  lemma RecountKeepsKeys(a: Adapter, b: Buffer, frameType: FrameType, count: int)
    ensures SameKeys(a, WithRefCount(a, b, frameType, count))
  {
    var r := WithRefCount(a, b, frameType, count);
    assert r.capture.Keys == a.capture.Keys;
    assert r.preview.Keys == a.preview.Keys;
    assert r.data.Keys == a.data.Keys;
    assert r.video.Keys == a.video.Keys;
  }

  lemma ReturnKeepsKeys(a: Adapter, b: Buffer, frameType: FrameType)
    requires a.Valid() && Known(a, b, frameType)
    ensures SameKeys(a, ReturnFrame(a, b, frameType))
  {
    if !b.Null? && RefCount(a, b, frameType) > 0 {
      RecountKeepsKeys(a, b, frameType, RefCount(a, b, frameType) - 1);
    }
  }

  lemma {:induction false} ReturnsKeepKeys(a: Adapter, b: Buffer, frameType: FrameType, times: nat)
    requires a.Valid() && Known(a, b, frameType)
    ensures ReturnFrames(a, b, frameType, times).Valid() && SameKeys(a, ReturnFrames(a, b, frameType, times))
    decreases times
  {
    if times > 0 {
      ReturnKeepsKeys(a, b, frameType);
      ReturnFrameKeepsValid(a, b, frameType);
      ReturnsKeepKeys(ReturnFrame(a, b, frameType), b, frameType, times - 1);
    }
  }

  lemma DispatchKeepsKnown(a: Adapter, b: Buffer, frameType: FrameType, returnsAtOnce: nat -> bool, calls: seq<int>,
                           types: seq<FrameType>)
    requires a.Valid() && Known(a, b, frameType) && KnownFor(a, b, types)
    ensures var r := AfterDispatch(a, b, frameType, returnsAtOnce, calls); r.Valid() && KnownFor(r, b, types)
  {
    ReturnsKeepKeys(a, b, frameType, Returns(RefCount(a, b, frameType), returnsAtOnce, calls));
    var r := AfterDispatch(a, b, frameType, returnsAtOnce, calls);
    forall t | t in types && HasSubscribers(t) ensures Known(r, b, t) {
      KnownByKeys(a, r, b, t);
    }
  }

  lemma KnownByKeys(a: Adapter, r: Adapter, b: Buffer, t: FrameType)
    requires SameKeys(a, r) && Known(a, b, t)
    ensures Known(r, b, t)
  {
    if t.VideoFrameSync? {
      assert r.video == map[] <==> r.video.Keys == {};
      assert a.video == map[] <==> a.video.Keys == {};
    } else {
      assert b in a.capture <==> b in r.capture.Keys;
      assert b in a.preview <==> b in r.preview.Keys;
      assert b in a.data <==> b in r.data.Keys;
    }
  }

  /** How far a frame has been sent: the adapter, the status, and how many dispatches were made. */
  datatype Sending = Sending(adapter: Adapter, status: Status, made: nat)

  /** The calls of the dispatch made as the `i`-th. */
  function Calls(logs: seq<seq<int>>, i: nat): seq<int> {
    if i < |logs| then logs[i] else []
  }

  /** One more type: no dispatch after an error, and none of a type without subscriber lists. */
  function NextSending(s: Sending, b: Buffer, t: FrameType, audience: Audience, queueEmpty: bool, logs: seq<seq<int>>)
    : (r: Sending)
    requires s.adapter.Valid() && (HasSubscribers(t) ==> Known(s.adapter, b, t))
  {
    if !s.status.NoError? || !HasSubscribers(t) then s
    else if !DispatchStatus(s.adapter, b, t, audience, queueEmpty).NoError? then s.(status := InvalidArgument)
    else Sending(AfterDispatch(s.adapter, b, t, audience.returnsAtOnce, Calls(logs, s.made)), NoError, s.made + 1)
  }

  lemma NextKeepsAllKnown(s: Sending, b: Buffer, t: FrameType, audience: Audience, queueEmpty: bool, logs: seq<seq<int>>)
    requires s.adapter.Valid() && (HasSubscribers(t) ==> Known(s.adapter, b, t))
    ensures var r := NextSending(s, b, t, audience, queueEmpty, logs);
            r.adapter.Valid() && forall ts :: KnownFor(s.adapter, b, ts) ==> KnownFor(r.adapter, b, ts)
  {
    if HasSubscribers(t) {
      DispatchKeepsAllKnown(s.adapter, b, t, audience.returnsAtOnce, Calls(logs, s.made));
    }
  }

  /**
   Sends a frame of the given types, the calls of the dispatches that are made being `logs`, one after the other. An
   error ends the sending; later types are not dispatched.
   */
  ghost function Sent(a: Adapter, b: Buffer, types: seq<FrameType>, audiences: Audiences, queueEmpty: bool, logs: seq<seq<int>>)
    : (s: Sending)
    requires a.Valid() && KnownFor(a, b, types)
    ensures s.adapter.Valid() && forall ts :: KnownFor(a, b, ts) ==> KnownFor(s.adapter, b, ts)
    decreases |types|
  {
    if types == [] then Sending(a, NoError, 0)
    else
      var t := types[|types| - 1];
      assert t in types;
      var s := Sent(a, b, types[..|types| - 1], audiences, queueEmpty, logs);
      assert KnownFor(s.adapter, b, types);
      NextKeepsAllKnown(s, b, t, audiences(t), queueEmpty, logs);
      NextSending(s, b, t, audiences(t), queueEmpty, logs)
  }

  lemma DispatchKeepsAllKnown(a: Adapter, b: Buffer, frameType: FrameType, returnsAtOnce: nat -> bool, calls: seq<int>)
    requires a.Valid() && Known(a, b, frameType)
    ensures AfterDispatch(a, b, frameType, returnsAtOnce, calls).Valid()
    ensures forall ts :: KnownFor(a, b, ts) ==> KnownFor(AfterDispatch(a, b, frameType, returnsAtOnce, calls), b, ts)
  {
    forall ts | KnownFor(a, b, ts) ensures KnownFor(AfterDispatch(a, b, frameType, returnsAtOnce, calls), b, ts) {
      DispatchKeepsKnown(a, b, frameType, returnsAtOnce, calls, ts);
    }
    DispatchKeepsKnown(a, b, frameType, returnsAtOnce, calls, []);
  }

  /** Each log is that of a complete dispatch of its type. */
  ghost predicate RightLogs(a: Adapter, b: Buffer, types: seq<FrameType>, audiences: Audiences, queueEmpty: bool,
                            logs: seq<seq<int>>)
    requires a.Valid() && KnownFor(a, b, types)
    decreases |types|
  {
    types == [] ||
    var before := types[..|types| - 1];
    var t := types[|types| - 1];
    var s := Sent(a, b, before, audiences, queueEmpty, logs);
    && RightLogs(a, b, before, audiences, queueEmpty, logs)
    && (Sent(a, b, types, audiences, queueEmpty, logs).made == s.made + 1 ==>
          && s.made < |logs|
          && IsCallLog(logs[s.made], Cookies(audiences(t).history(0)), audiences(t).history)
          && IsComplete(logs[s.made], Cookies(audiences(t).history(0)), audiences(t).history))
  }

  /** What was sent does not depend on logs of dispatches made later. */
  lemma {:induction false} EarlierLogsDecide(a: Adapter, b: Buffer, types: seq<FrameType>, audiences: Audiences,
                                             queueEmpty: bool, logs: seq<seq<int>>, more: seq<int>)
    requires a.Valid() && KnownFor(a, b, types)
    requires Sent(a, b, types, audiences, queueEmpty, logs).made <= |logs|
    ensures Sent(a, b, types, audiences, queueEmpty, logs + [more]) == Sent(a, b, types, audiences, queueEmpty, logs)
    decreases |types|
  {
    if types != [] {
      EarlierLogsDecide(a, b, types[..|types| - 1], audiences, queueEmpty, logs, more);
    }
  }

  lemma {:induction false} RightLogsStayRight(a: Adapter, b: Buffer, types: seq<FrameType>, audiences: Audiences,
                                             queueEmpty: bool, logs: seq<seq<int>>, more: seq<int>)
    requires a.Valid() && KnownFor(a, b, types)
    requires Sent(a, b, types, audiences, queueEmpty, logs).made <= |logs|
    requires RightLogs(a, b, types, audiences, queueEmpty, logs)
    ensures RightLogs(a, b, types, audiences, queueEmpty, logs + [more])
    decreases |types|
  {
    EarlierLogsDecide(a, b, types, audiences, queueEmpty, logs, more);
    if types != [] {
      var before := types[..|types| - 1];
      EarlierLogsDecide(a, b, before, audiences, queueEmpty, logs, more);
      RightLogsStayRight(a, b, before, audiences, queueEmpty, logs, more);
    }
  }

  /** After an error nothing more is sent. */
  lemma {:induction false} ErrorEndsSending(a: Adapter, b: Buffer, types: seq<FrameType>, more: seq<FrameType>,
                                            audiences: Audiences, queueEmpty: bool, logs: seq<seq<int>>)
    requires a.Valid() && KnownFor(a, b, types + more) && KnownFor(a, b, types)
    requires !Sent(a, b, types, audiences, queueEmpty, logs).status.NoError?
    ensures Sent(a, b, types + more, audiences, queueEmpty, logs) == Sent(a, b, types, audiences, queueEmpty, logs)
    ensures RightLogs(a, b, types, audiences, queueEmpty, logs)
        ==> RightLogs(a, b, types + more, audiences, queueEmpty, logs)
    decreases |more|
  {
    if more == [] {
      assert types + more == types;
    } else {
      var init := more[..|more| - 1];
      assert (types + more)[..|types + more| - 1] == types + init;
      assert KnownFor(a, b, types + init) by {
        forall t | t in types + init ensures t in types + more {
        }
      }
      ErrorEndsSending(a, b, types, init, audiences, queueEmpty, logs);
    }
  }

  lemma SentSoFarIsSent(a: Adapter, b: Buffer, some: seq<FrameType>, all: seq<FrameType>, audiences: Audiences,
                        queueEmpty: bool, logs: seq<seq<int>>)
    requires a.Valid() && KnownFor(a, b, some) && KnownFor(a, b, all) && some <= all
    requires RightLogs(a, b, some, audiences, queueEmpty, logs)
    requires Sent(a, b, some, audiences, queueEmpty, logs).status.NoError? ==> some == all
    ensures Sent(a, b, all, audiences, queueEmpty, logs) == Sent(a, b, some, audiences, queueEmpty, logs)
    ensures RightLogs(a, b, all, audiences, queueEmpty, logs)
  {
    if some != all {
      assert some + all[|some|..] == all;
      ErrorEndsSending(a, b, some, all[|some|..], audiences, queueEmpty, logs);
    }
  }

  /** The types of a mask, in the order of its bits. */
  function Masked(types: seq<FrameType>, mask: set<FrameType>): seq<FrameType> {
    if types == [] then []
    else
      var last := |types| - 1;
      Masked(types[..last], mask) + (if types[last] in mask then [types[last]] else [])
  }

  /** The types of the first `i + 1` bits. */
  lemma {:induction false} MaskedExtends(types: seq<FrameType>, i: nat, mask: set<FrameType>)
    requires i < |types|
    ensures Masked(types[..i + 1], mask) == Masked(types[..i], mask) + (if types[i] in mask then [types[i]] else [])
    ensures Masked(types[..i + 1], mask) <= Masked(types, mask)
    decreases |types|
  {
    assert types[..i + 1][..i] == types[..i];
    if i + 1 < |types| {
      var init := types[..|types| - 1];
      MaskedExtends(init, i, mask);
      assert init[..i + 1] == types[..i + 1];
    } else {
      assert types[..i + 1] == types;
    }
  }

  /** The types of the first `k` bits have been sent, as far as errors let them. */
  ghost predicate SentUpTo(k: nat, a: Adapter, b: Buffer, mask: set<FrameType>, audiences: Audiences, queueEmpty: bool,
                           logs: seq<seq<int>>, s: Sending)
    requires k <= |FRAME_TYPES| && a.Valid() && KnownFor(a, b, Masked(FRAME_TYPES, mask))
  {
    var done := Masked(FRAME_TYPES[..k], mask);
    && done <= Masked(FRAME_TYPES, mask) && KnownFor(a, b, done)
    && s == Sent(a, b, done, audiences, queueEmpty, logs) && RightLogs(a, b, done, audiences, queueEmpty, logs)
  }

  lemma NothingSentYet(a: Adapter, b: Buffer, mask: set<FrameType>, audiences: Audiences, queueEmpty: bool)
    requires a.Valid() && KnownFor(a, b, Masked(FRAME_TYPES, mask))
    ensures SentUpTo(0, a, b, mask, audiences, queueEmpty, [], Sending(a, NoError, 0))
  {
  }

  lemma SentUpToEnd(k: nat, a: Adapter, b: Buffer, mask: set<FrameType>, audiences: Audiences, queueEmpty: bool,
                    logs: seq<seq<int>>, s: Sending)
    requires k <= |FRAME_TYPES| && a.Valid() && KnownFor(a, b, Masked(FRAME_TYPES, mask))
    requires SentUpTo(k, a, b, mask, audiences, queueEmpty, logs, s) && (s.status.NoError? ==> k == |FRAME_TYPES|)
    ensures s == Sent(a, b, Masked(FRAME_TYPES, mask), audiences, queueEmpty, logs)
    ensures RightLogs(a, b, Masked(FRAME_TYPES, mask), audiences, queueEmpty, logs)
  {
    assert k == |FRAME_TYPES| ==> FRAME_TYPES[..k] == FRAME_TYPES;
    SentSoFarIsSent(a, b, Masked(FRAME_TYPES[..k], mask), Masked(FRAME_TYPES, mask), audiences, queueEmpty, logs);
  }

  lemma NextBitIsKnown(k: nat, a: Adapter, b: Buffer, mask: set<FrameType>)
    requires k < |FRAME_TYPES| && a.Valid() && KnownFor(a, b, Masked(FRAME_TYPES, mask))
    ensures var next := Masked(FRAME_TYPES[..k + 1], mask);
            && next <= Masked(FRAME_TYPES, mask) && KnownFor(a, b, next)
            && KnownFor(a, b, Masked(FRAME_TYPES[..k], mask))
            && next == if FRAME_TYPES[k] in mask then Masked(FRAME_TYPES[..k], mask) + [FRAME_TYPES[k]]
                       else Masked(FRAME_TYPES[..k], mask)
  {
    MaskedExtends(FRAME_TYPES, k, mask);
    KnownForSome(a, b, Masked(FRAME_TYPES[..k + 1], mask), Masked(FRAME_TYPES, mask));
    KnownForSome(a, b, Masked(FRAME_TYPES[..k], mask), Masked(FRAME_TYPES[..k + 1], mask));
  }

  /** Sending without an error so far, with a log for each dispatch made. */
  ghost predicate Underway(a: Adapter, b: Buffer, types: seq<FrameType>, audiences: Audiences, queueEmpty: bool,
                           logs: seq<seq<int>>, now: Adapter)
    requires a.Valid() && KnownFor(a, b, types)
  {
    && Sent(a, b, types, audiences, queueEmpty, logs) == Sending(now, NoError, |logs|)
    && RightLogs(a, b, types, audiences, queueEmpty, logs)
  }

  lemma KnownForSome(a: Adapter, b: Buffer, some: seq<FrameType>, all: seq<FrameType>)
    requires KnownFor(a, b, all) && some <= all
    ensures KnownFor(a, b, some)
  {
    forall t | t in some ensures HasSubscribers(t) ==> Known(a, b, t) {
      assert t in all;
    }
  }

  lemma UnsentType(a: Adapter, b: Buffer, types: seq<FrameType>, t: FrameType, audiences: Audiences, queueEmpty: bool,
                   logs: seq<seq<int>>, now: Adapter)
    requires a.Valid() && KnownFor(a, b, types + [t]) && KnownFor(a, b, types)
    requires Underway(a, b, types, audiences, queueEmpty, logs, now) && !HasSubscribers(t)
    ensures Underway(a, b, types + [t], audiences, queueEmpty, logs, now)
  {
    assert (types + [t])[..|types|] == types;
  }

  /** What a dispatch under way finds: the buffer is known for the next type as well. */
  lemma NextTypeIsKnown(a: Adapter, b: Buffer, types: seq<FrameType>, t: FrameType, audiences: Audiences, queueEmpty: bool,
                        logs: seq<seq<int>>, now: Adapter)
    requires a.Valid() && KnownFor(a, b, types + [t]) && KnownFor(a, b, types)
    requires Underway(a, b, types, audiences, queueEmpty, logs, now) && HasSubscribers(t)
    ensures Known(now, b, t)
  {
    assert t in types + [t];
    assert KnownFor(Sent(a, b, types, audiences, queueEmpty, logs).adapter, b, types + [t]);
  }

  lemma FailedType(a: Adapter, b: Buffer, types: seq<FrameType>, t: FrameType, audiences: Audiences, queueEmpty: bool,
                   logs: seq<seq<int>>, now: Adapter)
    requires a.Valid() && KnownFor(a, b, types + [t]) && KnownFor(a, b, types)
    requires Underway(a, b, types, audiences, queueEmpty, logs, now) && HasSubscribers(t) && Known(now, b, t)
    requires !DispatchStatus(now, b, t, audiences(t), queueEmpty).NoError?
    ensures Sent(a, b, types + [t], audiences, queueEmpty, logs) == Sending(now, InvalidArgument, |logs|)
    ensures RightLogs(a, b, types + [t], audiences, queueEmpty, logs)
  {
    assert (types + [t])[..|types|] == types;
  }

  lemma SentType(a: Adapter, b: Buffer, types: seq<FrameType>, t: FrameType, audiences: Audiences, queueEmpty: bool,
                 logs: seq<seq<int>>, now: Adapter, calls: seq<int>)
    requires a.Valid() && KnownFor(a, b, types + [t]) && KnownFor(a, b, types)
    requires Underway(a, b, types, audiences, queueEmpty, logs, now) && HasSubscribers(t)
    requires now.Valid() && Known(now, b, t) && DispatchStatus(now, b, t, audiences(t), queueEmpty).NoError?
    requires IsCallLog(calls, Cookies(audiences(t).history(0)), audiences(t).history)
    requires IsComplete(calls, Cookies(audiences(t).history(0)), audiences(t).history)
    ensures Underway(a, b, types + [t], audiences, queueEmpty, logs + [calls],
                     AfterDispatch(now, b, t, audiences(t).returnsAtOnce, calls))
  {
    assert (types + [t])[..|types|] == types;
    EarlierLogsDecide(a, b, types, audiences, queueEmpty, logs, calls);
    RightLogsStayRight(a, b, types, audiences, queueEmpty, logs, calls);
    NextOfSentType(now, b, t, audiences(t), queueEmpty, logs + [calls]);
  }

  lemma NextOfSentType(now: Adapter, b: Buffer, t: FrameType, audience: Audience, queueEmpty: bool, logs: seq<seq<int>>)
    requires |logs| > 0 && HasSubscribers(t) && now.Valid() && Known(now, b, t)
    requires DispatchStatus(now, b, t, audience, queueEmpty).NoError?
    ensures NextSending(Sending(now, NoError, |logs| - 1), b, t, audience, queueEmpty, logs)
         == Sending(AfterDispatch(now, b, t, audience.returnsAtOnce, logs[|logs| - 1]), NoError, |logs|)
  {
  }

  /** The bits of a frame's mask (camera/inc/CameraHal.h:225-238). */
  function FrameBit(frameType: FrameType): nat {
    match frameType
    case PreviewFrameSync => 0x1
    case PreviewFrame => 0x2
    case ImageFrameSync => 0x4
    case ImageFrame => 0x8
    case VideoFrameSync => 0x10
    case VideoFrame => 0x20
    case FrameDataSync => 0x40
    case FrameData => 0x80
    case RawFrame => 0x100
    case SnapshotFrame => 0x200
  }

  ghost predicate Ascending(types: seq<FrameType>) {
    forall i, j :: 0 <= i < j < |types| ==> FrameBit(types[i]) < FrameBit(types[j])
  }

  lemma {:induction false} MaskedIsAscending(k: nat, mask: set<FrameType>)
    requires k <= |FRAME_TYPES|
    ensures Ascending(Masked(FRAME_TYPES[..k], mask))
    ensures forall t :: t in Masked(FRAME_TYPES[..k], mask) ==> t in mask && FrameBit(t) < PowerOf2(k)
    ensures forall t :: t in mask && FrameBit(t) < PowerOf2(k) ==> t in Masked(FRAME_TYPES[..k], mask)
  {
    if k > 0 {
      var t := FRAME_TYPES[k - 1];
      MaskedIsAscending(k - 1, mask);
      assert FRAME_TYPES[..k][..k - 1] == FRAME_TYPES[..k - 1] && FRAME_TYPES[..k][k - 1] == t;
      BitsOfTypes(k - 1);
    }
  }

  function PowerOf2(k: nat): nat {
    if k == 0 then 1 else 2 * PowerOf2(k - 1)
  }

  /** The list of the types follows the bits. */
  lemma BitsOfTypes(k: nat)
    requires k < |FRAME_TYPES|
    ensures FrameBit(FRAME_TYPES[k]) == PowerOf2(k)
    ensures forall t: FrameType :: FrameBit(t) < 2 * PowerOf2(k) ==> FrameBit(t) < PowerOf2(k) || t == FRAME_TYPES[k]
  {
  }

  /** A frame is sent as each of its types, once, in the order of the mask bits. */
  lemma TypesAreSentInBitOrder(mask: set<FrameType>)
    ensures Ascending(Masked(FRAME_TYPES, mask))
    ensures forall t :: t in Masked(FRAME_TYPES, mask) <==> t in mask
  {
    MaskedIsAscending(|FRAME_TYPES|, mask);
    assert FRAME_TYPES[..|FRAME_TYPES|] == FRAME_TYPES;
    assert |FRAME_TYPES| == 10 && PowerOf2(10) == 0x400;
  }

  /** The frame of a recording: its preview bit comes before its video bit. */
  lemma RecordedTypes()
    ensures Masked(FRAME_TYPES, {PreviewFrameSync, VideoFrameSync}) == [PreviewFrameSync, VideoFrameSync]
  {
    var mask := {PreviewFrameSync, VideoFrameSync};
    for k := 0 to |FRAME_TYPES|
      invariant Masked(FRAME_TYPES[..k], mask)
             == if k == 0 then [] else if k <= 4 then [PreviewFrameSync] else [PreviewFrameSync, VideoFrameSync]
    {
      assert FRAME_TYPES[..k + 1][..k] == FRAME_TYPES[..k];
    }
    assert FRAME_TYPES[..|FRAME_TYPES|] == FRAME_TYPES;
  }

  /** The types of a frame outside a recording. */
  lemma PreviewTypes()
    ensures Masked(FRAME_TYPES, {PreviewFrameSync}) == [PreviewFrameSync]
  {
    var mask := {PreviewFrameSync};
    for k := 0 to |FRAME_TYPES|
      invariant Masked(FRAME_TYPES[..k], mask) == if k == 0 then [] else [PreviewFrameSync]
    {
      assert FRAME_TYPES[..k + 1][..k] == FRAME_TYPES[..k];
    }
    assert FRAME_TYPES[..|FRAME_TYPES|] == FRAME_TYPES;
  }

  /** The video dispatch of a recorded frame is made only if the preview dispatch is no error. */
  lemma PreviewErrorSendsNothing(a: Adapter, b: Buffer, audiences: Audiences, queueEmpty: bool, logs: seq<seq<int>>)
    requires a.Valid() && KnownFor(a, b, [PreviewFrameSync, VideoFrameSync]) && b in a.preview
    ensures var s := Sent(a, b, [PreviewFrameSync, VideoFrameSync], audiences, queueEmpty, logs);
            if DispatchStatus(a, b, PreviewFrameSync, audiences(PreviewFrameSync), queueEmpty).NoError? then s.made > 0
            else s == Sending(a, InvalidArgument, 0)
  {
    var types, first := [PreviewFrameSync, VideoFrameSync], [PreviewFrameSync];
    assert types[..1] == first && first[..0] == [];
    assert KnownFor(a, b, first) && KnownFor(a, b, []);
    assert Sent(a, b, [], audiences, queueEmpty, logs) == Sending(a, NoError, 0);
    var s := Sent(a, b, first, audiences, queueEmpty, logs);
    assert s.status.NoError? ==> s.made == 1;
  }

  /**
   While recording, a frame with counts just set to the numbers of subscribers goes to anybody at all exactly if it has a
   preview subscriber and can be sent; otherwise all its counts stand, the video counts included, although no
   video client was called.
   */
  lemma RecordedFrameIsSentExactlyIf(a: Adapter, b: Buffer, subs: Subscriptions, audiences: Audiences, queueEmpty: bool,
                                     logs: seq<seq<int>>)
    requires a.Valid() && a.recording && b in a.preview && b in a.video
    requires |audiences(PreviewFrameSync).history(0)| == subs.frame
    ensures var mask := {PreviewFrameSync, VideoFrameSync};
            var counted := WithInitialCounts(a, subs, b, mask);
            && counted.Valid() && KnownFor(counted, b, Masked(FRAME_TYPES, mask))
            && var s := Sent(counted, b, Masked(FRAME_TYPES, mask), audiences, queueEmpty, logs);
               && (s.made == 0 <==> subs.frame == 0 || queueEmpty)
               && (s.made == 0 ==> s == Sending(counted, InvalidArgument, 0) && s.adapter.video[b] == subs.video)
  {
    var mask := {PreviewFrameSync, VideoFrameSync};
    var counted := WithInitialCounts(a, subs, b, mask);
    InitialCountsKeepValid(a, subs, b, mask);
    assert counted.video == a.video[b := subs.video] && counted.preview == a.preview[b := subs.frame];
    RecordedTypes();
    PreviewErrorSendsNothing(counted, b, audiences, queueEmpty, logs);
  }
}
