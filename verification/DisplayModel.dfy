/**
 The display side of the buffer protocol as a value: who holds which preview buffer, and
 how many dequeue requests wait in the display queue. The class
 DisplayAdapter.ANativeWindowDisplayAdapter is proved against these functions.
 */
module DisplayModel {
  import opened Wrappers
  import opened CameraAdapterModel

  datatype DisplayState = DisplayInit | DisplayStarted | DisplayStopped | DisplayExited

  /** What became of one dequeue: the window refused, or it gave a buffer that then could not
      be locked, or the buffer came back for good. */
  datatype Dequeue = Refused | Unlockable(b: Buffer) | Dequeued(b: Buffer)

  /**
   `camera` are the keys of the frames-with-camera-adapter map, `window` what the native
   window holds and is due to give back, and `lost` what neither has: frames that failed to be queued, and
   dequeued buffers that could not be locked. `gone` are the buffers that disabling the display has taken
   out of the map, and `cancelled` those it has given to the window, which is not due to give them back.
   `pending` is the length of the display queue. The last three fields count the exceptions since the
   allocation: requests thrown away or refused, frames that failed to be queued, and requests already
   there at the start.
   */
  datatype Display = Display(
    buffers: seq<Buffer>,
    undequeued: nat,
    camera: set<Buffer>,
    window: set<Buffer>,
    lost: set<Buffer>,
    gone: set<Buffer>,
    cancelled: set<Buffer>,
    pending: nat,
    state: DisplayState,
    dropped: nat,
    misposted: nat,
    stale: nat)
  {
    /** How many buffers the camera starts with. */
    function Queueable(): nat {
      if undequeued <= |buffers| then |buffers| - undequeued else |buffers|
    }

    function All(): set<Buffer> {
      Members(buffers)
    }

    /** The buffers the display is not due to return, in the map or taken out of it. */
    function Idle(): set<Buffer> {
      camera + gone
    }

    /** The display has given back or forgotten nothing since the allocation. */
    predicate Intact() {
      gone == {} && cancelled == {}
    }

    /** Every buffer is in exactly one place, the books balance, and a display that runs is intact. */
    ghost predicate Valid() {
      && Distinct(buffers)
      && Partition(Idle(), window, lost, All())
      && cancelled <= Idle()
      && misposted <= |lost|
      && |Idle()| + pending + |lost| + dropped == Queueable() + misposted + stale
      && (state.DisplayStarted? ==> Intact())
    }
  }

  // --- Operations ---

  /** Where `allocateBuffer` leaves the buffers it dequeued: the first ones with the camera, the
      last `undequeued` back with the window. It does not touch the display queue. */
  function Allocate(d: Display, buffers: seq<Buffer>, undequeued: nat): Display {
    var kept := if undequeued <= |buffers| then |buffers| - undequeued else |buffers|;
    Display(buffers, undequeued, Members(buffers[..kept]), Members(buffers[kept..]), {}, {}, {},
            d.pending, d.state, 0, 0, d.pending)
  }

  /** `PostFrame`: a frame goes to the window, to be shown or merely cancelled, and a request to
      dequeue another one is queued. A buffer given back before is with the window in any case. */
  function PostFrame(d: Display, b: Buffer, accepted: bool): Display {
    var taken := accepted || b in d.cancelled;
    d.(camera := d.camera - {b},
       gone := d.gone - {b},
       cancelled := d.cancelled - {b},
       window := if taken then d.window + {b} else d.window,
       lost := if taken then d.lost else d.lost + {b},
       misposted := if taken then d.misposted else d.misposted + 1,
       pending := d.pending + 1)
  }

  /** `disableDisplay`, once the display thread has stopped: the buffers of the map are given to the window, up to the first
      that it refuses, or the window is forgotten; unless one was refused the map is emptied. */
  function GiveBack(d: Display, cancels: set<Buffer>, emptied: bool): Display {
    d.(cancelled := d.cancelled + cancels,
       camera := if emptied then {} else d.camera,
       gone := if emptied then d.gone + d.camera else d.gone)
  }

  predicate MayGiveBack(d: Display, cancels: set<Buffer>, emptied: bool) {
    d.state.DisplayStopped? && cancels <= d.camera && (emptied ==> cancels == d.camera || cancels == {})
  }

  /** The display is enabled only for newly allocated buffers. */
  predicate MayTell(d: Display, state: DisplayState) {
    state.DisplayStarted? ==> d.Intact()
  }

  /** The window can only give out what it holds. */
  predicate Possible(d: Display, outcome: Dequeue) {
    outcome.Refused? || outcome.b in d.window
  }

  /** `handleFrameReturn`, after its request was taken from the queue. */
  function HandleFrameReturn(d: Display, outcome: Dequeue): Display {
    match outcome
    case Refused => d.(dropped := d.dropped + 1)
    case Unlockable(b) => d.(window := d.window - {b}, lost := d.lost + {b})
    case Dequeued(b) => d.(window := d.window - {b}, camera := d.camera + {b})
  }

  /** One turn of the display thread on its queue. */
  function ServeQueue(d: Display, outcome: Dequeue): Display {
    if d.pending == 0 || d.state.DisplayInit? then d
    else
      var taken := d.(pending := d.pending - 1);
      if d.state.DisplayStarted? then HandleFrameReturn(taken, outcome)
      else taken.(dropped := d.dropped + 1)
  }

  /** The buffer the display thread hands back to the camera in this turn, if any. */
  function HandedBack(d: Display, outcome: Dequeue): Option<Buffer> {
    if d.pending > 0 && d.state.DisplayStarted? && outcome.Dequeued? then Some(outcome.b) else None
  }

  /** A turn takes one request and, while the display runs, moves what the window gives out; only what can be locked as well
      goes back to the camera. */
  lemma TurnByFields(d: Display, outcome: Dequeue)
    ensures var r := ServeQueue(d, outcome);
            var turns := d.pending > 0 && d.state.DisplayStarted?;
            && r.pending == d.pending - (if d.pending > 0 && !d.state.DisplayInit? then 1 else 0) && r.state == d.state
            && r.camera == d.camera + (if turns && outcome.Dequeued? then {outcome.b} else {})
            && r.window == d.window - (if turns && !outcome.Refused? then {outcome.b} else {})
            && r.lost == d.lost + (if turns && outcome.Unlockable? then {outcome.b} else {})
            && HandedBack(d, outcome) == if turns && outcome.Dequeued? then Some(outcome.b) else None
  {
  }

  // --- Conservation ---

  lemma {:induction false} DistinctCount(buffers: seq<Buffer>)
    requires Distinct(buffers)
    ensures |Members(buffers)| == |buffers|
    decreases |buffers|
  {
    if buffers != [] {
      var last := |buffers| - 1;
      DistinctCount(buffers[..last]);
      InMembers(buffers[..last], buffers[last]);
    }
  }

  /** Every buffer of `all`, and no other, is in exactly one of the three places. */
  ghost predicate Partition(a: set<Buffer>, b: set<Buffer>, c: set<Buffer>, all: set<Buffer>) {
    forall x: Buffer ::
      && (x in all <==> x in a || x in b || x in c)
      && !(x in a && x in b) && !(x in a && x in c) && !(x in b && x in c)
  }

  /** The order in which the three places are listed does not matter. */
  lemma Reordered(a: set<Buffer>, b: set<Buffer>, c: set<Buffer>, all: set<Buffer>)
    requires Partition(a, b, c, all)
    ensures Partition(b, a, c, all) && Partition(a, c, b, all) && Partition(c, a, b, all)
  {
  }

  /** Moving one buffer between two of the three places. */
  lemma MoveOne(from: set<Buffer>, to: set<Buffer>, rest: set<Buffer>, all: set<Buffer>, b: Buffer)
    requires Partition(from, to, rest, all) && b in from
    ensures Partition(from - {b}, to + {b}, rest, all)
    ensures |from - {b}| == |from| - 1 && |to + {b}| == |to| + 1
  {
    assert from == (from - {b}) + {b};
  }

  lemma SplitIsPartition(buffers: seq<Buffer>, kept: nat)
    requires Distinct(buffers) && kept <= |buffers|
    ensures Partition(Members(buffers[..kept]), Members(buffers[kept..]), {}, Members(buffers))
  {
    var front, back := buffers[..kept], buffers[kept..];
    assert buffers == front + back;
    forall i, j | 0 <= i < |front| && 0 <= j < |back| ensures front[i] != back[j] {
      DistinctPair(buffers, i, kept + j);
    }
    forall b ensures b in Members(buffers) <==> b in Members(front) || b in Members(back)
             ensures !(b in Members(front) && b in Members(back))
    {
      InMembers(buffers, b);
      InMembers(front, b);
      InMembers(back, b);
    }
  }

  /** The first buffers are with the camera and as many of the last as the window insists on are with the window, if there
      are that many; the books start afresh. */
  lemma AllocateByIndex(d: Display, buffers: seq<Buffer>, undequeued: nat)
    requires Distinct(buffers)
    ensures var r := Allocate(d, buffers, undequeued);
            && r.buffers == buffers && r.pending == r.stale == d.pending && r.state == d.state
            && r.lost == r.gone == r.cancelled == {} && r.dropped == r.misposted == 0
    ensures var r := Allocate(d, buffers, undequeued);
            forall i :: 0 <= i < |buffers| ==>
              && (buffers[i] in r.camera <==> undequeued > |buffers| || i + undequeued < |buffers|)
              && (buffers[i] in r.window <==> buffers[i] !in r.camera)
  {
    var r := Allocate(d, buffers, undequeued);
    var kept := r.Queueable();
    SplitIsPartition(buffers, kept);
    forall i | 0 <= i < |buffers|
      ensures buffers[i] in r.camera <==> i < kept
      ensures buffers[i] in r.window <==> buffers[i] !in r.camera
    {
      InMembers(buffers, buffers[i]);
      InMembers(buffers[..kept], buffers[i]);
      InMembers(buffers[kept..], buffers[i]);
      assert if i < kept then buffers[..kept][i] == buffers[i] else buffers[kept..][i - kept] == buffers[i];
    }
  }

  lemma AllocateIsValid(d: Display, buffers: seq<Buffer>, undequeued: nat)
    requires Distinct(buffers)
    ensures Allocate(d, buffers, undequeued).Valid()
    ensures |Allocate(d, buffers, undequeued).camera| == Allocate(d, buffers, undequeued).Queueable()
  {
    var r := Allocate(d, buffers, undequeued);
    var kept := r.Queueable();
    assert r.Idle() == r.camera;
    assert |r.camera| == kept by {
      DistinctPrefix(buffers, kept);
      DistinctCount(buffers[..kept]);
    }
    assert Partition(r.Idle(), r.window, r.lost, r.All()) by { SplitIsPartition(buffers, kept); }
  }

  lemma PostFrameKeepsValid(d: Display, b: Buffer, accepted: bool)
    requires d.Valid() && b in d.Idle()
    ensures PostFrame(d, b, accepted).Valid()
  {
    var r := PostFrame(d, b, accepted);
    assert r.Idle() == d.Idle() - {b};
    Reordered(d.Idle(), d.window, d.lost, d.All());
    if accepted || b in d.cancelled {
      MoveOne(d.Idle(), d.window, d.lost, d.All(), b);
    } else {
      MoveOne(d.Idle(), d.lost, d.window, d.All(), b);
      Reordered(d.Idle() - {b}, d.lost + {b}, d.window, d.All());
    }
  }

  /** Giving buffers back moves none of them as far as returns are concerned. */
  lemma GiveBackKeepsValid(d: Display, cancels: set<Buffer>, emptied: bool)
    requires d.Valid() && MayGiveBack(d, cancels, emptied)
    ensures GiveBack(d, cancels, emptied).Valid() && GiveBack(d, cancels, emptied).Idle() == d.Idle()
  {
    assert GiveBack(d, cancels, emptied).Idle() == d.Idle();
  }

  lemma TellKeepsValid(d: Display, state: DisplayState)
    requires d.Valid() && MayTell(d, state)
    ensures d.(state := state).Valid()
  {
    assert d.(state := state).Idle() == d.Idle();
  }

  /** A buffer leaves the window for the camera or, if it cannot be locked, for nobody. */
  lemma WindowShrinks(d: Display, b: Buffer)
    requires Partition(d.camera, d.window, d.lost, d.All()) && b in d.window
    ensures Partition(d.camera + {b}, d.window - {b}, d.lost, d.All()) && |d.camera + {b}| == |d.camera| + 1
    ensures Partition(d.camera, d.window - {b}, d.lost + {b}, d.All()) && |d.lost + {b}| == |d.lost| + 1
  {
    Reordered(d.camera, d.window, d.lost, d.All());
    Reordered(d.window, d.camera, d.lost, d.All());
    MoveOne(d.window, d.lost, d.camera, d.All(), b);
    Reordered(d.window - {b}, d.lost + {b}, d.camera, d.All());
    MoveOne(d.window, d.camera, d.lost, d.All(), b);
    Reordered(d.window - {b}, d.camera + {b}, d.lost, d.All());
  }

  /** A running display is intact, so what the window gives out is what it was due to give back. */
  lemma FrameReturnKeepsValid(d: Display, outcome: Dequeue)
    requires d.Valid() && Possible(d, outcome) && d.state.DisplayStarted? && d.pending > 0
    ensures HandleFrameReturn(d.(pending := d.pending - 1), outcome).Valid()
  {
    var r := HandleFrameReturn(d.(pending := d.pending - 1), outcome);
    assert d.Idle() == d.camera && r.Idle() == r.camera;
    if !outcome.Refused? {
      WindowShrinks(d, outcome.b);
    }
  }

  lemma ServeQueueKeepsValid(d: Display, outcome: Dequeue)
    requires d.Valid() && Possible(d, outcome)
    ensures ServeQueue(d, outcome).Valid()
  {
    if d.pending > 0 && d.state.DisplayStarted? {
      FrameReturnKeepsValid(d, outcome);
    } else {
      assert ServeQueue(d, outcome).Idle() == d.Idle();
    }
  }

  lemma PartitionCount(a: set<Buffer>, b: set<Buffer>, c: set<Buffer>, all: set<Buffer>)
    requires Partition(a, b, c, all)
    ensures |all| == |a| + |b| + |c|
  {
    assert all == a + b + c;
    assert |a + b| == |a| + |b|;
    assert |a + b + c| == |a + b| + |c|;
  }

  /** The window's share, exactly, not counting what was given back: its minimum, plus one buffer per pending or dropped request,
      less the exceptions. */
  lemma WindowShare(d: Display)
    requires d.Valid() && d.undequeued <= |d.buffers|
    ensures |d.window| == d.undequeued + d.pending + d.dropped - d.misposted - d.stale
  {
    DistinctCount(d.buffers);
    PartitionCount(d.Idle(), d.window, d.lost, d.All());
  }

  /** A request that waits in the queue can be served from the buffers the window does not insist
      on keeping, exactly if requests and refusals outnumber failed posts and
      leftover requests; in particular whenever there are none of these two. */
  lemma WindowCanServe(d: Display)
    requires d.Valid() && d.undequeued <= |d.buffers| && d.pending > 0
    ensures |d.window| > d.undequeued <==> d.pending + d.dropped > d.misposted + d.stale
    ensures d.misposted == 0 && d.stale == 0 ==> |d.window| > d.undequeued
  {
    WindowShare(d);
  }

  /** Without exceptions, the frames with the camera and the requests in the queue add up to the
      number of queueable buffers; with any exceptions but leftover requests, they
      never exceed it. */
  lemma CameraAndQueueAddUp(d: Display)
    requires d.Valid()
    ensures |d.camera| + d.pending <= d.Queueable() + d.stale
    ensures d.lost == {} && d.dropped == 0 && d.stale == 0 && d.gone == {} ==> |d.camera| + d.pending == d.Queueable()
  {
    SubsetIsSmaller(d.camera, d.Idle());
    if d.gone == {} {
      assert d.Idle() == d.camera;
    }
  }

  lemma SubsetIsSmaller(a: set<Buffer>, b: set<Buffer>)
    requires a <= b
    ensures |a| <= |b|
  {
    assert b == a + (b - a);
  }
}
