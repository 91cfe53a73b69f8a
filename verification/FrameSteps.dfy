/**
 What the loop over the types of a frame does to the adapter is what the system's steps do: the frame is completed, and
 every count without a taker is returned.
 */
module FrameSteps {
  import opened CameraAdapterModel
  import opened FrameDispatch
  import opened FrameSending
  import opened BufferSystem

  /** The frame is returned as a preview frame `times` times, for clients not called or by clients at once. */
  function PreviewDones(s: System, b: Buffer, times: nat): (r: System)
    requires s.adapter.Valid() && b in s.adapter.preview
    ensures r.adapter == ReturnFrames(s.adapter, b, PreviewFrameSync, times)
    decreases times
  {
    if times == 0 then s
    else
      ReturnFrameKeepsValid(s.adapter, b, PreviewFrameSync);
      PreviewDones(PreviewClientDone(s, b, PreviewFrameSync, false), b, times - 1)
  }

  /** The same for the video clients. */
  function VideoDones(s: System, b: Buffer, times: nat): (r: System)
    requires s.adapter.Valid() && b in s.adapter.video && !b.Null?
    ensures r.adapter == ReturnFrames(s.adapter, b, VideoFrameSync, times)
    decreases times
  {
    if times == 0 then s
    else
      ReturnFrameKeepsValid(s.adapter, b, VideoFrameSync);
      OneVideoDone(s, b);
      VideoDones(VideoClientDone(s, b, false), b, times - 1)
  }

  lemma OneVideoDone(s: System, b: Buffer)
    requires s.adapter.Valid() && b in s.adapter.video && !b.Null?
    ensures var r := VideoClientDone(s, b, false);
            r.adapter == ReturnFrame(s.adapter, b, VideoFrameSync) && b in r.adapter.video
  {
    if s.adapter.video[b] > 0 {
      VideoReturn(s.adapter, b);
    }
  }

  lemma {:induction false} PreviewReturnsKeepVideo(a: Adapter, b: Buffer, times: nat)
    requires a.Valid() && b in a.preview
    ensures var r := ReturnFrames(a, b, PreviewFrameSync, times);
            r.Valid() && r.recording == a.recording && r.video == a.video && r.preview.Keys == a.preview.Keys
    decreases times
  {
    if times > 0 {
      ReturnFrameKeepsValid(a, b, PreviewFrameSync);
      PreviewReturnsKeepVideo(ReturnFrame(a, b, PreviewFrameSync), b, times - 1);
    }
  }

  lemma OneTypeIsSent(a: Adapter, b: Buffer, audiences: Audiences, queueEmpty: bool, logs: seq<seq<int>>)
    requires a.Valid() && b in a.preview && |audiences(PreviewFrameSync).history(0)| == a.preview[b]
    ensures KnownFor(a, b, [PreviewFrameSync])
    ensures Sent(a, b, [PreviewFrameSync], audiences, queueEmpty, logs)
         == if queueEmpty || a.preview[b] == 0 then Sending(a, InvalidArgument, 0)
            else Sending(AfterDispatch(a, b, PreviewFrameSync, audiences(PreviewFrameSync).returnsAtOnce, Calls(logs, 0)), NoError, 1)
  {
    var types := [PreviewFrameSync];
    assert types[..0] == [] && KnownFor(a, b, []);
    assert Sent(a, b, [], audiences, queueEmpty, logs) == Sending(a, NoError, 0);
  }

  lemma VideoTypeIsSent(one: Sending, b: Buffer, audience: Audience, queueEmpty: bool, logs: seq<seq<int>>)
    requires one.adapter.Valid() && b in one.adapter.video && |audience.history(0)| == one.adapter.video[b]
    requires one.status.NoError? && one.made == 1 && !queueEmpty
    ensures NextSending(one, b, VideoFrameSync, audience, queueEmpty, logs)
         == if one.adapter.video[b] == 0 then one.(status := InvalidArgument)
            else Sending(AfterDispatch(one.adapter, b, VideoFrameSync, audience.returnsAtOnce, Calls(logs, 1)), NoError, 2)
  {
  }

  lemma TwoTypesAreSent(a: Adapter, b: Buffer, audiences: Audiences, queueEmpty: bool, logs: seq<seq<int>>)
    requires a.Valid() && b in a.preview && |audiences(PreviewFrameSync).history(0)| == a.preview[b]
    requires b in a.video && |audiences(VideoFrameSync).history(0)| == a.video[b]
    ensures KnownFor(a, b, [PreviewFrameSync, VideoFrameSync]) && KnownFor(a, b, [PreviewFrameSync])
    ensures var one := Sent(a, b, [PreviewFrameSync], audiences, queueEmpty, logs);
            var two := Sent(a, b, [PreviewFrameSync, VideoFrameSync], audiences, queueEmpty, logs);
            && one.adapter.Valid() && Known(one.adapter, b, VideoFrameSync)
            && two == NextSending(one, b, VideoFrameSync, audiences(VideoFrameSync), queueEmpty, logs)
  {
    var types := [PreviewFrameSync, VideoFrameSync];
    assert types[..1] == [PreviewFrameSync] && VideoFrameSync in types;
    OneTypeIsSent(a, b, audiences, queueEmpty, logs);
    PreviewReturnsKeepVideo(a, b, Returns(a.preview[b], audiences(PreviewFrameSync).returnsAtOnce, Calls(logs, 0)));
  }

  /**
   The adapter after a frame in it was sent: as it is after an error, or with the frame returned by every client that does so
   at once and for every count without a taker.
   */
  ghost predicate IsSentFrame(r: System, b: Buffer, sent: Sending, failed: bool, videoClients: nat, audiences: Audiences,
                              logs: seq<seq<int>>)
    requires r.adapter.Valid() && b in r.adapter.preview
  {
    if failed then sent == Sending(r.adapter, InvalidArgument, 0)
    else
      var seen := PreviewDones(r, b, Returns(r.adapter.preview[b], audiences(PreviewFrameSync).returnsAtOnce, Calls(logs, 0)));
      if videoClients == 0 then sent.adapter == seen.adapter && sent.made == 1
      else IsRecordedFrame(seen, b, sent, audiences(VideoFrameSync), videoClients, logs)
  }

  ghost predicate IsRecordedFrame(seen: System, b: Buffer, sent: Sending, audience: Audience, videoClients: nat,
                                  logs: seq<seq<int>>)
  {
    && seen.adapter.Valid() && b in seen.adapter.video && !b.Null? && seen.adapter.video[b] == videoClients
    && sent == Sending(VideoDones(seen, b, Returns(videoClients, audience.returnsAtOnce, Calls(logs, 1))).adapter, NoError, 2)
  }

  lemma PlainFrameIsSent(r: System, b: Buffer, audiences: Audiences, queueEmpty: bool, logs: seq<seq<int>>)
    requires r.adapter.Valid() && b in r.adapter.preview && |audiences(PreviewFrameSync).history(0)| == r.adapter.preview[b]
    ensures KnownFor(r.adapter, b, [PreviewFrameSync])
    ensures IsSentFrame(r, b, Sent(r.adapter, b, [PreviewFrameSync], audiences, queueEmpty, logs),
                        queueEmpty || r.adapter.preview[b] == 0, 0, audiences, logs)
  {
    OneTypeIsSent(r.adapter, b, audiences, queueEmpty, logs);
  }

  lemma VideoDispatchReturns(a: Adapter, b: Buffer, audience: Audience, calls: seq<int>)
    requires a.Valid() && b in a.video
    ensures AfterDispatch(a, b, VideoFrameSync, audience.returnsAtOnce, calls)
         == ReturnFrames(a, b, VideoFrameSync, Returns(a.video[b], audience.returnsAtOnce, calls))
  {
    assert RefCount(a, b, VideoFrameSync) == a.video[b];
  }

  /** What the system's steps do, given by the number of returns. */
  lemma VideoDonesReturn(s: System, b: Buffer, times: nat)
    requires s.adapter.Valid() && b in s.adapter.video && !b.Null?
    ensures VideoDones(s, b, times).adapter == ReturnFrames(s.adapter, b, VideoFrameSync, times)
  {
  }

  lemma VideoDispatchIsDones(seen: System, b: Buffer, audience: Audience, calls: seq<int>, times: nat)
    requires seen.adapter.Valid() && b in seen.adapter.video && !b.Null?
    requires times == Returns(seen.adapter.video[b], audience.returnsAtOnce, calls)
    ensures AfterDispatch(seen.adapter, b, VideoFrameSync, audience.returnsAtOnce, calls)
         == VideoDones(seen, b, times).adapter
  {
    VideoDispatchReturns(seen.adapter, b, audience, calls);
    VideoDonesReturn(seen, b, times);
  }

  lemma SeenFrameIsRecorded(seen: System, b: Buffer, audience: Audience, logs: seq<seq<int>>)
    requires seen.adapter.Valid() && b in seen.adapter.video && !b.Null?
    requires |audience.history(0)| == seen.adapter.video[b] > 0
    ensures IsRecordedFrame(seen, b, NextSending(Sending(seen.adapter, NoError, 1), b, VideoFrameSync, audience, false, logs),
                            audience, seen.adapter.video[b], logs)
  {
    VideoTypeIsSent(Sending(seen.adapter, NoError, 1), b, audience, false, logs);
    VideoDispatchIsDones(seen, b, audience, Calls(logs, 1), Returns(seen.adapter.video[b], audience.returnsAtOnce, Calls(logs, 1)));
  }

  lemma NextOfSeenFrame(r: System, b: Buffer, audiences: Audiences, logs: seq<seq<int>>)
    requires r.adapter.Valid() && b in r.adapter.preview && r.adapter.preview[b] > 0
    requires b in r.adapter.video && |audiences(VideoFrameSync).history(0)| == r.adapter.video[b] && !b.Null?
    ensures var seen := AfterDispatch(r.adapter, b, PreviewFrameSync, audiences(PreviewFrameSync).returnsAtOnce, Calls(logs, 0));
            && seen.Valid() && b in seen.video
            && IsSentFrame(r, b, NextSending(Sending(seen, NoError, 1), b, VideoFrameSync, audiences(VideoFrameSync), false, logs),
                           false, r.adapter.video[b], audiences, logs)
  {
    var returns' := Returns(r.adapter.preview[b], audiences(PreviewFrameSync).returnsAtOnce, Calls(logs, 0));
    var seen := PreviewDones(r, b, returns');
    PreviewReturnsKeepVideo(r.adapter, b, returns');
    if r.adapter.video[b] == 0 {
      VideoTypeIsSent(Sending(seen.adapter, NoError, 1), b, audiences(VideoFrameSync), false, logs);
    } else {
      SeenFrameIsRecorded(seen, b, audiences(VideoFrameSync), logs);
    }
  }

  lemma RecordedFrameIsSent(r: System, b: Buffer, audiences: Audiences, queueEmpty: bool, logs: seq<seq<int>>)
    requires r.adapter.Valid() && b in r.adapter.preview && |audiences(PreviewFrameSync).history(0)| == r.adapter.preview[b]
    requires b in r.adapter.video && |audiences(VideoFrameSync).history(0)| == r.adapter.video[b] && !b.Null?
    ensures KnownFor(r.adapter, b, [PreviewFrameSync, VideoFrameSync])
    ensures IsSentFrame(r, b, Sent(r.adapter, b, [PreviewFrameSync, VideoFrameSync], audiences, queueEmpty, logs),
                        queueEmpty || r.adapter.preview[b] == 0, r.adapter.video[b], audiences, logs)
  {
    OneTypeIsSent(r.adapter, b, audiences, queueEmpty, logs);
    TwoTypesAreSent(r.adapter, b, audiences, queueEmpty, logs);
    if !queueEmpty && r.adapter.preview[b] > 0 {
      NextOfSeenFrame(r, b, audiences, logs);
    }
  }

  /**
   Sending a completed frame: if it cannot be sent, or has no preview subscriber, its counts stay as the step
   leaves them. Otherwise the step is followed by a return for every preview client that makes it at once and every
   preview count without a taker, and, if there are video counts, by the same for those.
   */
  lemma CompletedFrameIsSent(s: System, b: Buffer, previewClients: nat, videoClients: nat, audiences: Audiences,
                             queueEmpty: bool, logs: seq<seq<int>>)
    requires s.adapter.Valid() && b in s.adapter.preview && !b.Null?
    requires |audiences(PreviewFrameSync).history(0)| == previewClients
    requires |audiences(VideoFrameSync).history(0)| == videoClients
    ensures var r := CompleteFrame(s, b, previewClients, videoClients, queueEmpty);
            var types := Masked(FRAME_TYPES, FrameMask(s));
            && r.adapter.Valid() && b in r.adapter.preview && r.adapter.preview[b] == previewClients
            && KnownFor(r.adapter, b, types)
            && IsSentFrame(r, b, Sent(r.adapter, b, types, audiences, queueEmpty, logs), queueEmpty || previewClients == 0,
                           if s.adapter.recording then videoClients else 0, audiences, logs)
  {
    var r := CompleteFrame(s, b, previewClients, videoClients, queueEmpty);
    FrameCounts(s, r, b, previewClients, videoClients, queueEmpty);
    if s.adapter.recording {
      RecordedTypes();
      RecordedFrameIsSent(r, b, audiences, queueEmpty, logs);
    } else {
      PreviewTypes();
      PlainFrameIsSent(r, b, audiences, queueEmpty, logs);
    }
  }
}
