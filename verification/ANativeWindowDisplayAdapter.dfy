/**
 The display adapter object (camera/ANativeWindowDisplayAdapter.cpp), proved against
 DisplayModel. Window and mapper calls are environment choices passed as parameters.
 */
module DisplayAdapter {
  import opened Wrappers
  import opened CameraAdapterModel
  import opened DisplayModel
  import CameraAdapter

  /** Whether the window accepts its usage, buffer count and geometry; only a buffer count that it has accepted
      becomes the adapter's. */
  datatype SetUp = Accepted | Rejected(counted: bool)

  datatype HalMessage = StartDisplay | StopDisplay | ExitDisplay

  class ANativeWindowDisplayAdapter {
    const frameProvider: CameraAdapter.BaseCameraAdapter
    var bufferCount: nat
    var grallocHandles: array?<Buffer>
    var framesWithCameraAdapter: map<Buffer, nat>
    var displayQ: nat  // the dummy messages waiting; they carry nothing
    var displayState: DisplayState
    var displayEnabled: bool
    var paused: bool
    var suspended: bool
    ghost var minUndequeued: nat
    ghost var window: set<Buffer>
    ghost var lost: set<Buffer>
    ghost var gone: set<Buffer>
    ghost var cancelled: set<Buffer>
    ghost var dropped: nat
    ghost var misposted: nat
    ghost var stale: nat

    ghost function Handles(): seq<Buffer>
      reads this, grallocHandles
    {
      if grallocHandles == null then [] else grallocHandles[..]
    }

    ghost function View(): Display
      reads this, grallocHandles
    {
      Display(Handles(), minUndequeued, framesWithCameraAdapter.Keys, window, lost, gone, cancelled, displayQ, displayState,
              dropped, misposted, stale)
    }

    /** The map leads from each handle with the camera to its index. */
    ghost predicate Indexed()
      reads this, grallocHandles
    {
      && (grallocHandles != null ==> grallocHandles.Length == bufferCount)
      && forall b <- framesWithCameraAdapter ::
           framesWithCameraAdapter[b] < |Handles()| && Handles()[framesWithCameraAdapter[b]] == b
    }

    constructor (provider: CameraAdapter.BaseCameraAdapter)
      ensures Indexed() && frameProvider == provider
      ensures View() == Display([], 0, {}, {}, {}, {}, {}, 0, DisplayInit, 0, 0, 0)
    {
      frameProvider := provider;
      bufferCount, grallocHandles, framesWithCameraAdapter := 0, null, map[];
      displayQ, displayState, displayEnabled, paused, suspended := 0, DisplayInit, false, false, false;
      minUndequeued, window, lost, gone, cancelled, dropped, misposted, stale := 0, {}, {}, {}, {}, 0, 0, 0;
    }

    method ProcessHalMsg(message: HalMessage)
      requires Indexed()
      modifies this`displayState
      ensures Indexed()
      ensures View() == old(View()).(state := match message
                                              case StartDisplay => DisplayStarted
                                              case StopDisplay => DisplayStopped
                                              case ExitDisplay => DisplayExited)
    {
      match message
      case StartDisplay => displayState := DisplayStarted;
      case StopDisplay => displayState := DisplayStopped;
      case ExitDisplay => displayState := DisplayExited;
    }

    /**
     Dequeues `numBufs` buffers from the window and hands the last `undequeued` of them
     back. `dequeued` is what the window gives out before it refuses, and `refused` what it does not take
     back. If anything goes wrong, everything the window takes goes back; what it does not take stays in
     the map, which then leads to handles that are no more.
     */
    method AllocateBuffer(setUp: SetUp, dequeued: seq<Buffer>, numBufs: nat, undequeued: nat, refused: set<Buffer>)
      returns (ok: bool)
      requires framesWithCameraAdapter == map[] && Distinct(dequeued) && |dequeued| <= numBufs
      modifies this
      ensures var kept := if undequeued <= numBufs then numBufs - undequeued else numBufs;
              ok <==> setUp.Accepted? && |dequeued| == numBufs && forall i :: kept <= i < numBufs ==> dequeued[i] !in refused
      ensures ok ==> Indexed() && View() == Allocate(old(View()), dequeued, undequeued)
      ensures ok ==> forall i :: 0 <= i < numBufs ==>
                && (dequeued[i] in framesWithCameraAdapter <==> undequeued > numBufs || i + undequeued < numBufs)
                && (dequeued[i] in window <==> dequeued[i] !in framesWithCameraAdapter)
      ensures setUp.Rejected? ==>
                && framesWithCameraAdapter == map[] && fresh(grallocHandles) && grallocHandles.Length == numBufs
                && bufferCount == if setUp.counted then numBufs else old(bufferCount)
      ensures setUp.Accepted? && !ok && (forall b <- dequeued :: b !in refused) ==>
                Indexed() && View() == Allocate(old(View()), [], undequeued)
      ensures setUp.Accepted? && !ok ==> grallocHandles == null
      ensures setUp.Accepted? && !ok ==> forall b <- dequeued :: b in refused ==> b in framesWithCameraAdapter
    {
      grallocHandles := new Buffer[numBufs];
      if setUp.Rejected? {
        bufferCount := if setUp.counted then numBufs else bufferCount;
        return false;
      }
      AllocateByIndex(View(), dequeued, undequeued);
      ok := TakeInitialBuffers(dequeued, numBufs, undequeued, refused);
    }

    /** The part that follows an accepted set-up. */
    method TakeInitialBuffers(dequeued: seq<Buffer>, numBufs: nat, undequeued: nat, refused: set<Buffer>) returns (ok: bool)
      requires framesWithCameraAdapter == map[] && Distinct(dequeued) && |dequeued| <= numBufs
      requires grallocHandles != null && grallocHandles.Length == numBufs
      modifies this, grallocHandles
      ensures var kept := if undequeued <= numBufs then numBufs - undequeued else numBufs;
              ok <==> |dequeued| == numBufs && forall i :: kept <= i < numBufs ==> dequeued[i] !in refused
      ensures ok ==> Indexed() && View() == Allocate(old(View()), dequeued, undequeued)
      ensures !ok && (forall b <- dequeued :: b !in refused) ==> Indexed() && View() == Allocate(old(View()), [], undequeued)
      ensures !ok ==> grallocHandles == null && forall b <- dequeued :: b in refused ==> b in framesWithCameraAdapter
    {
      bufferCount := numBufs;
      DequeueInitialBuffers(dequeued);
      var kept := if undequeued <= numBufs then numBufs - undequeued else numBufs;
      var i;
      ok, i := CancelSurplus(dequeued, kept, refused);
      if ok {
        assert grallocHandles[..] == dequeued;
        OpenBooks(dequeued, kept, undequeued);
      } else {
        CleanUp(dequeued, i, refused);
        if forall b <- dequeued :: b !in refused {
          OpenBooks([], 0, undequeued);
        }
      }
    }

    /** Gives the surplus back if all buffers could be dequeued; `i` is where it fails. */
    method CancelSurplus(dequeued: seq<Buffer>, kept: nat, refused: set<Buffer>) returns (ok: bool, i: nat)
      requires Distinct(dequeued) && Records(dequeued, framesWithCameraAdapter) && kept <= bufferCount
      requires Indexed() && grallocHandles != null && |dequeued| <= bufferCount
      modifies this`framesWithCameraAdapter
      ensures Indexed() && i <= |dequeued|
      ensures ok <==> |dequeued| == bufferCount && forall k :: kept <= k < bufferCount ==> dequeued[k] !in refused
      ensures ok ==> Records(dequeued[..kept], framesWithCameraAdapter)
      ensures forall b <- framesWithCameraAdapter :: b in dequeued
      ensures forall b <- dequeued :: b in refused ==> b in framesWithCameraAdapter
    {
      ghost var indices := framesWithCameraAdapter;
      ok, i := false, |dequeued|;
      if i == bufferCount {
        i := CancelBuffers(dequeued, kept, bufferCount, refused);
        KeysOfFewer(dequeued[kept..i], indices, framesWithCameraAdapter);
        ok := i == bufferCount;
      }
      if ok {
        assert dequeued[kept..i] == dequeued[kept..];
        RecordsOfPrefix(dequeued, indices, kept);
      }
    }

    /** What follows a failed dequeue or cancel of buffer `i`: all buffers before it are cancelled, then those
        still in the map, and the handles are freed. */
    method CleanUp(dequeued: seq<Buffer>, i: nat, refused: set<Buffer>)
      requires i <= |dequeued| && Indexed() && grallocHandles != null
      requires forall b <- framesWithCameraAdapter :: b in dequeued
      modifies this`framesWithCameraAdapter, this`gone, this`cancelled, this`grallocHandles
      ensures grallocHandles == null
      ensures (forall b <- dequeued :: b !in refused) ==> framesWithCameraAdapter == map[]
      ensures forall b :: b in refused && b in old(framesWithCameraAdapter) ==> b in framesWithCameraAdapter
    {
      var stopped := CancelBuffers(dequeued, 0, i, refused);
      KeysOfFewer(dequeued[..stopped], old(framesWithCameraAdapter), framesWithCameraAdapter);
      var status, back := ReturnBuffersToWindow(true, refused);
      grallocHandles := null;
    }

    /** The ghost accounts start afresh. */
    ghost method OpenBooks(buffers: seq<Buffer>, kept: nat, undequeued: nat)
      requires Handles() == buffers && kept == if undequeued <= |buffers| then |buffers| - undequeued else |buffers|
      requires Records(buffers[..kept], framesWithCameraAdapter)
      modifies this`minUndequeued, this`window, this`lost, this`gone, this`cancelled, this`dropped, this`misposted, this`stale
      ensures View() == Allocate(old(View()), buffers, undequeued)
    {
      RecordedKeys(buffers[..kept], framesWithCameraAdapter);
      AllocateRecorded(View(), buffers, kept, undequeued);
      StartAccounts(undequeued, Members(buffers[kept..]));
    }

    ghost method StartAccounts(undequeued: nat, back: set<Buffer>)
      modifies this`minUndequeued, this`window, this`lost, this`gone, this`cancelled, this`dropped, this`misposted, this`stale
      ensures minUndequeued == undequeued && window == back && lost == gone == cancelled == {}
      ensures dropped == misposted == 0 && stale == displayQ
    {
      minUndequeued, window, lost, gone, cancelled := undequeued, back, {}, {}, {};
      dropped, misposted, stale := 0, 0, displayQ;
    }

    static lemma AllocateRecorded(d: Display, buffers: seq<Buffer>, kept: nat, undequeued: nat)
      requires kept == if undequeued <= |buffers| then |buffers| - undequeued else |buffers|
      requires d.buffers == buffers && d.camera == Members(buffers[..kept])
      ensures Allocate(d, buffers, undequeued)
           == d.(undequeued := undequeued, window := Members(buffers[kept..]), lost := {}, gone := {}, cancelled := {},
                 dropped := 0, misposted := 0, stale := d.pending)
    {
    }

    /** The map records every dequeued buffer under its index. */
    static ghost predicate Records(buffers: seq<Buffer>, indices: map<Buffer, nat>) {
      && (forall i :: 0 <= i < |buffers| ==> buffers[i] in indices)
      && forall b <- indices :: indices[b] < |buffers| && buffers[indices[b]] == b
    }

    static lemma RecordedKeys(buffers: seq<Buffer>, indices: map<Buffer, nat>)
      requires Records(buffers, indices)
      ensures indices.Keys == Members(buffers)
    {
      forall b ensures b in indices.Keys <==> b in Members(buffers) {
        InMembers(buffers, b);
      }
    }

    method DequeueInitialBuffers(dequeued: seq<Buffer>)
      requires framesWithCameraAdapter == map[] && grallocHandles != null && |dequeued| <= grallocHandles.Length == bufferCount
      modifies this`framesWithCameraAdapter, grallocHandles
      ensures grallocHandles[..|dequeued|] == dequeued && Records(dequeued, framesWithCameraAdapter) && Indexed()
    {
      var i := 0;
      while i < bufferCount && i < |dequeued|
        invariant 0 <= i <= |dequeued|
        invariant grallocHandles[..i] == dequeued[..i]
        invariant Records(dequeued[..i], framesWithCameraAdapter)
      {
        grallocHandles[i] := dequeued[i];
        framesWithCameraAdapter := framesWithCameraAdapter[dequeued[i] := i];
        i := i + 1;
      }
      assert dequeued[..i] == dequeued;
    }

    /** The buffers from index `first` to `last` go back to the window one by one, up to the first that it refuses. */
    method CancelBuffers(buffers: seq<Buffer>, first: nat, last: nat, refused: set<Buffer>) returns (i: nat)
      requires first <= last <= |buffers|
      modifies this`framesWithCameraAdapter
      ensures first <= i <= last && (forall k :: first <= k < i ==> buffers[k] !in refused)
      ensures i < last ==> buffers[i] in refused
      ensures framesWithCameraAdapter == old(framesWithCameraAdapter) - Members(buffers[first..i])
    {
      i := first;
      while i < last && buffers[i] !in refused
        invariant first <= i <= last && forall k :: first <= k < i ==> buffers[k] !in refused
        invariant framesWithCameraAdapter == old(framesWithCameraAdapter) - Members(buffers[first..i])
      {
        assert buffers[first..i + 1][..i - first] == buffers[first..i];
        framesWithCameraAdapter := framesWithCameraAdapter - {buffers[i]};
        i := i + 1;
      }
    }

    /** Taking the buffers behind the first `kept` out of the map leaves a record of those. */
    static lemma RecordsOfPrefix(buffers: seq<Buffer>, indices: map<Buffer, nat>, kept: nat)
      requires Distinct(buffers) && Records(buffers, indices) && kept <= |buffers|
      ensures Records(buffers[..kept], indices - Members(buffers[kept..]))
    {
      var left := indices - Members(buffers[kept..]);
      forall b ensures b in left <==> b in indices && indices[b] < kept {
        InMembers(buffers[kept..], b);
        if b in indices {
          if kept <= indices[b] {
            assert buffers[kept..][indices[b] - kept] == b;
          } else if b in buffers[kept..] {
            var k :| kept <= k < |buffers| && buffers[k] == b;
            DistinctAt(buffers, indices, k);
          }
        }
      }
      forall k | 0 <= k < kept ensures buffers[..kept][k] in left {
        DistinctAt(buffers, indices, k);
      }
    }

    static lemma KeysOfFewer(buffers: seq<Buffer>, indices: map<Buffer, nat>, left: map<Buffer, nat>)
      requires left == indices - Members(buffers)
      ensures forall b :: b in left <==> b in indices && b !in buffers
    {
      forall b ensures b in left <==> b in indices && b !in buffers {
        InMembers(buffers, b);
      }
    }

    static lemma DistinctAt(buffers: seq<Buffer>, indices: map<Buffer, nat>, k: nat)
      requires Distinct(buffers) && Records(buffers, indices) && k < |buffers|
      ensures indices[buffers[k]] == k
    {
      var j := indices[buffers[k]];
      if j < k { DistinctPair(buffers, j, k); }
      if k < j { DistinctPair(buffers, k, j); }
    }

    /**
     What CameraHal tells the camera adapter: how many buffers start out free to be filled, given the window's
     present minimum, if it tells one. If that is the one allocateBuffer saw, it is the number left with the camera; if
     the window has come to insist on more buffers than there are, the 32-bit difference wraps.
     */
    method MaxQueueableBuffers(undequeued: Option<nat>) returns (queueable: Option<nat>)
      requires Indexed() && bufferCount < 0x8000_0000 && (undequeued.Some? ==> undequeued.value < 0x8000_0000)
      ensures queueable.Some? <==> bufferCount > 0 && undequeued.Some?
      ensures queueable.Some? ==>
                && (queueable.value <= bufferCount <==> undequeued.value <= bufferCount)
                && (undequeued.value <= bufferCount ==> queueable.value + undequeued.value == bufferCount)
                && (undequeued.value > bufferCount ==> queueable.value + undequeued.value == bufferCount + 0x1_0000_0000)
      ensures queueable.Some? && grallocHandles != null && minUndequeued <= bufferCount ==>
                (queueable == Some(View().Queueable()) <==> undequeued == Some(minUndequeued))
    {
      if bufferCount == 0 || undequeued.None? {
        return None;
      }
      queueable := Some((bufferCount - undequeued.value) % 0x1_0000_0000);
    }

    /** The search for a buffer's index that the next two methods begin with. */
    method FindHandle(b: Buffer) returns (i: nat)
      requires Indexed() && grallocHandles != null && b in Handles()
      ensures i < grallocHandles.Length && grallocHandles[i] == b
      ensures b !in grallocHandles[..i]
    {
      i := 0;
      while i < bufferCount && grallocHandles[i] != b
        invariant 0 <= i <= bufferCount
        invariant b !in grallocHandles[..i]
      {
        assert grallocHandles[..i + 1] == grallocHandles[..i] + [grallocHandles[i]];
        i := i + 1;
      }
      assert grallocHandles[..bufferCount] == Handles();
    }

    /** A frame from the camera goes to the window: to be shown if the display is running, or else
        merely cancelled; either way one request to dequeue a buffer is queued. */
    method PostFrame(b: Buffer, snapshot: bool, accepted: bool) returns (ret: Status)
      requires Indexed() && (!b.Null? && grallocHandles != null ==> b in Handles())
      modifies this`framesWithCameraAdapter, this`displayQ, this`window, this`lost, this`gone, this`cancelled, this`misposted
      ensures Indexed()
      ensures b.Null? || grallocHandles == null ==> ret == InvalidArgument && View() == old(View())
      ensures !b.Null? && grallocHandles != null ==>
                && View() == DisplayModel.PostFrame(old(View()), b, accepted)
                && (ret.NoError? <==> accepted || !displayState.DisplayStarted? || (paused && !snapshot) || suspended)
      ensures !b.Null? && grallocHandles != null ==>
                var taken := accepted || b in old(cancelled);
                && framesWithCameraAdapter == old(framesWithCameraAdapter) - {b} && displayQ == old(displayQ) + 1
                && window == old(window) + (if taken then {b} else {}) && lost == old(lost) + (if taken then {} else {b})
                && gone == old(gone) - {b} && cancelled == old(cancelled) - {b}
    {
      if grallocHandles == null || b.Null? {
        return InvalidArgument;
      }
      var i := FindHandle(b);
      var sent := grallocHandles[i];  // the handle given to the window
      HandOver(sent, accepted);
      if displayState.DisplayStarted? && (!paused || snapshot) && !suspended {
        ret := if accepted then NoError else HookFailed(-1);
      } else {
        ret := NoError;
      }
      framesWithCameraAdapter := framesWithCameraAdapter - {b};
      displayQ := displayQ + 1;
    }

    /** The ghost accounts of a frame given to the window. */
    ghost method HandOver(sent: Buffer, accepted: bool)
      modifies this`window, this`lost, this`gone, this`cancelled, this`misposted
      ensures var posted := DisplayModel.PostFrame(old(View()), sent, accepted);
              && window == posted.window && lost == posted.lost && gone == posted.gone
              && cancelled == posted.cancelled && misposted == posted.misposted
    {
      var taken := accepted || sent in cancelled;
      window, lost := if taken then window + {sent} else window, if taken then lost else lost + {sent};
      gone, cancelled := gone - {sent}, cancelled - {sent};
      misposted := if taken then misposted else misposted + 1;
    }

    /** One turn of the display thread on its queue. */
    method ServeDisplayQ(outcome: Dequeue) returns (served: bool)
      requires Indexed() && Possible(View(), outcome)
      requires window <= Members(Handles()) && window <= frameProvider.View().preview.Keys
      requires frameProvider.View().Valid()
      modifies this`displayQ, this`framesWithCameraAdapter, this`window, this`lost, this`dropped
      modifies frameProvider
      ensures served <==> old(displayQ) > 0 && displayState.DisplayStarted? && outcome.Dequeued?
      ensures displayQ == old(displayQ) - if old(displayQ) > 0 && !displayState.DisplayInit? then 1 else 0
      ensures framesWithCameraAdapter.Keys == old(framesWithCameraAdapter).Keys + if served then {outcome.b} else {}
      ensures Indexed() && View() == ServeQueue(old(View()), outcome)
      ensures !served ==> frameProvider.View() == old(frameProvider.View())
      ensures served ==> frameProvider.View() == ReturnFrame(old(frameProvider.View()), outcome.b, PreviewFrameSync)
    {
      served := false;
      TurnByFields(View(), outcome);
      if displayQ == 0 || displayState.DisplayInit? {
        return;
      }
      displayQ := displayQ - 1;
      if displayState.DisplayStarted? {
        served := HandleFrameReturn(outcome);
      } else {
        dropped := dropped + 1;
      }
    }

    method HandleFrameReturn(outcome: Dequeue) returns (returned: bool)
      requires Indexed() && Possible(View(), outcome)
      requires window <= Members(Handles()) && window <= frameProvider.View().preview.Keys
      requires frameProvider.View().Valid()
      modifies this`framesWithCameraAdapter, this`window, this`lost, this`dropped
      modifies frameProvider
      ensures returned == outcome.Dequeued?
      ensures window == (if outcome.Refused? then old(window) else old(window) - {outcome.b})
      ensures framesWithCameraAdapter.Keys == old(framesWithCameraAdapter).Keys + if returned then {outcome.b} else {}
      ensures Indexed() && View() == DisplayModel.HandleFrameReturn(old(View()), outcome)
      ensures !outcome.Dequeued? ==> frameProvider.View() == old(frameProvider.View())
      ensures outcome.Dequeued?
          ==> frameProvider.View() == ReturnFrame(old(frameProvider.View()), outcome.b, PreviewFrameSync)
    {
      match outcome
      case Refused =>
        dropped := dropped + 1;
        returned := false;
      case Unlockable(b) =>
        window, lost := window - {b}, lost + {b};
        returned := false;
      case Dequeued(b) =>
        var handle := TakeBack(b);
        frameProvider.ReturnFrame(handle, PreviewFrameSync);
        returned := true;
    }

    /** Registers a dequeued buffer with the camera again. */
    method TakeBack(b: Buffer) returns (handle: Buffer)
      requires Indexed() && b in window && window <= Members(Handles())
      modifies this`framesWithCameraAdapter, this`window
      ensures handle == b && Indexed() && View() == DisplayModel.HandleFrameReturn(old(View()), Dequeued(b))
    {
      InMembers(Handles(), b);
      window := window - {b};
      var i := FindHandle(b);
      handle := grallocHandles[i];
      framesWithCameraAdapter := framesWithCameraAdapter[handle := i];
    }

    /**
     Every buffer with the camera is cancelled, and the map is emptied. The first buffer that the window refuses
     ends this with an error: the map is left as it was, although some of its buffers are with the
     window again. Without a window the map is emptied all the same.
     */
    method ReturnBuffersToWindow(hasWindow: bool, refused: set<Buffer>) returns (ret: Status, ghost back: set<Buffer>)
      requires Indexed()
      modifies this`framesWithCameraAdapter, this`gone, this`cancelled
      ensures ret.NoError? <==> !hasWindow || forall b :: b in old(framesWithCameraAdapter) ==> b !in refused
      ensures View() == GiveBack(old(View()), back, ret.NoError?)
      ensures cancelled == old(cancelled) + back
      ensures gone == old(gone) + if ret.NoError? then old(framesWithCameraAdapter).Keys else {}
      ensures back <= old(framesWithCameraAdapter.Keys) && forall b <- back :: b !in refused
      ensures ret.NoError? ==> back == (if hasWindow then old(framesWithCameraAdapter.Keys) else {})
      ensures framesWithCameraAdapter == if ret.NoError? then map[] else old(framesWithCameraAdapter)
      ensures Indexed()
    {
      back := {};
      ret := NoError;
      if hasWindow {
        var todo := framesWithCameraAdapter.Keys;
        while todo != {}
          invariant framesWithCameraAdapter == old(framesWithCameraAdapter) && Indexed()
          invariant todo <= framesWithCameraAdapter.Keys
          invariant forall b :: b in back <==> b in framesWithCameraAdapter && b !in todo
          invariant forall b <- back :: b !in refused
          invariant cancelled == old(cancelled) + back && gone == old(gone)
        {
          var b :| b in todo;
          var index := framesWithCameraAdapter[b];
          if grallocHandles[index] in refused {
            return HookFailed(-1), back;
          }
          cancelled := cancelled + {grallocHandles[index]};
          back := back + {b};
          todo := todo - {b};
        }
        assert forall b :: b in back <==> b in framesWithCameraAdapter.Keys;
      }
      assert cancelled == old(cancelled) + back;
      gone := gone + framesWithCameraAdapter.Keys;
      framesWithCameraAdapter := map[];
    }

    /** Starts the display thread. */
    method EnableDisplay()
      requires Indexed()
      modifies this`displayEnabled, this`displayState
      ensures Indexed() && displayEnabled
      ensures View() == if old(displayEnabled) then old(View()) else old(View()).(state := DisplayStarted)
      ensures !old(displayEnabled) ==> displayState == DisplayStarted
    {
      if !displayEnabled {
        ProcessHalMsg(StartDisplay);
        displayEnabled := true;
      }
    }

    /**
     Stops the display thread, and then gives the buffers with the camera to the window, or forgets the window. Nothing
     here stops the camera. A display that is not enabled is left alone.
     */
    method DisableDisplay(cancelBuffer: bool, hasWindow: bool, refused: set<Buffer>)
      returns (ret: Status, ghost back: set<Buffer>, ghost emptied: bool)
      requires Indexed()
      modifies this`displayEnabled, this`displayState, this`framesWithCameraAdapter, this`gone, this`cancelled
      ensures Indexed() && !displayEnabled
      ensures !old(displayEnabled) ==> !ret.NoError? && View() == old(View())
      ensures old(displayEnabled) ==>
                var stopped := old(View()).(state := DisplayStopped);
                && ret.NoError? && MayGiveBack(stopped, back, emptied) && View() == GiveBack(stopped, back, emptied)
                && (emptied <==> !cancelBuffer || !hasWindow || forall b <- stopped.camera :: b !in refused)
                && (emptied ==> back == if cancelBuffer && hasWindow then stopped.camera else {})
      ensures old(displayEnabled) ==>
                && displayState == DisplayStopped && cancelled == old(cancelled) + back
                && framesWithCameraAdapter == (if emptied then map[] else old(framesWithCameraAdapter))
                && gone == old(gone) + (if emptied then old(framesWithCameraAdapter).Keys else {})
    {
      back, emptied := {}, false;
      if !displayEnabled {
        return HookFailed(-1), back, emptied;
      }
      ProcessHalMsg(StopDisplay);
      displayEnabled := false;
      var status;
      status, back := ReturnBuffersToWindow(cancelBuffer && hasWindow, refused);
      emptied := status.NoError?;
      ret := NoError;
    }
  }
}
