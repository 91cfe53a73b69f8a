/**
 The restarting dispatch loop of `__sendFrameToSubscribers`
 (camera/BaseCameraAdapter.cpp). A callback may add and remove subscribers, so
 the loop starts over after each call and remembers, in a snapshot taken at the
 start, whom it has already called.
 */
module FrameDispatch {

  /** An entry of the subscriber list: its cookie, and whether its callback is non-null.
      A zero cookie is the null pointer. */
  datatype Subscriber = Subscriber(cookie: int, callback: bool) {
    predicate Callable() {
      callback && cookie != 0
    }
  }

  /** The subscriber list as it stands after a given number of callbacks. */
  type History = nat -> seq<Subscriber>

  function Cookies(subscribers: seq<Subscriber>): set<int> {
    set s | s in subscribers :: s.cookie
  }

  predicate UniqueCookies(subscribers: seq<Subscriber>) {
    forall i, j :: 0 <= i < j < |subscribers| ==> subscribers[i].cookie != subscribers[j].cookie
  }

  /** `s` is still owed the frame after `calls` were made. */
  predicate Owed(s: Subscriber, snapshot: set<int>, calls: seq<int>) {
    s.Callable() && s.cookie in snapshot && s.cookie !in calls
  }

  /** The next call goes to the first subscriber on the list that is owed the frame. */
  ghost predicate IsNextCall(cookie: int, subscribers: seq<Subscriber>, snapshot: set<int>, calls: seq<int>) {
    exists k :: 0 <= k < |subscribers| && subscribers[k].cookie == cookie
                && Owed(subscribers[k], snapshot, calls)
                && forall j :: 0 <= j < k ==> !Owed(subscribers[j], snapshot, calls)
  }

  ghost predicate IsCallLog(calls: seq<int>, snapshot: set<int>, history: History)
    decreases |calls|
  {
    calls == [] ||
    var last := |calls| - 1;
    IsCallLog(calls[..last], snapshot, history) && IsNextCall(calls[last], history(last), snapshot, calls[..last])
  }

  lemma {:induction false} CallLogAt(calls: seq<int>, snapshot: set<int>, history: History, i: nat)
    requires IsCallLog(calls, snapshot, history) && i < |calls|
    ensures IsNextCall(calls[i], history(i), snapshot, calls[..i])
    decreases |calls|
  {
    var last := |calls| - 1;
    if i < last {
      CallLogAt(calls[..last], snapshot, history, i);
      assert calls[..last][..i] == calls[..i];
    }
  }

  lemma CallExtendsLog(calls: seq<int>, snapshot: set<int>, history: History, k: nat)
    requires IsCallLog(calls, snapshot, history) && k < |history(|calls|)|
    requires Owed(history(|calls|)[k], snapshot, calls)
    requires forall j :: 0 <= j < k ==> !Owed(history(|calls|)[j], snapshot, calls)
    ensures IsCallLog(calls + [history(|calls|)[k].cookie], snapshot, history)
  {
    var cookie := history(|calls|)[k].cookie;
    assert IsNextCall(cookie, history(|calls|), snapshot, calls);
    assert (calls + [cookie])[..|calls|] == calls;
  }

  /** The marks say who has been called. */
  ghost predicate MarksCalled(marked: map<int, bool>, unmarked: set<int>, snapshot: set<int>, calls: seq<int>) {
    && marked.Keys == snapshot
    && forall c <- snapshot :: (marked[c] <==> c in calls) && (c in unmarked <==> c !in calls)
  }

  lemma MarkOneMore(marked: map<int, bool>, unmarked: set<int>, snapshot: set<int>, calls: seq<int>, c: int)
    requires MarksCalled(marked, unmarked, snapshot, calls) && c in snapshot
    ensures MarksCalled(marked[c := true], unmarked - {c}, snapshot, calls + [c])
  {
    assert marked[c := true].Keys == snapshot;
  }

  /** Nobody on the final list is owed the frame any more. */
  ghost predicate IsComplete(calls: seq<int>, snapshot: set<int>, history: History) {
    forall s <- history(|calls|) :: !Owed(s, snapshot, calls)
  }

  /**
   The loop. It ends although each call may change the list: a call marks one
   more snapshot entry, and without a call the index advances. `left` is what remains of the
   reference count; the caller returns the frame that many times.
   */
  method Deliver(history: History, refCount: nat) returns (calls: seq<int>, left: nat)
    ensures IsCallLog(calls, Cookies(history(0)), history)
    ensures IsComplete(calls, Cookies(history(0)), history)
    ensures left == if |calls| < refCount then refCount - |calls| else 0
  {
    calls, left := [], refCount;
    var subscribers := history(0);
    var marked: map<int, bool> := map s | s in subscribers :: s.cookie := false;
    ghost var snapshot := Cookies(subscribers);
    ghost var unmarked := snapshot;
    var k := 0;
    while k < |subscribers|
      invariant 0 <= k <= |subscribers|
      invariant subscribers == history(|calls|)
      invariant MarksCalled(marked, unmarked, snapshot, calls)
      invariant IsCallLog(calls, snapshot, history)
      invariant forall j :: 0 <= j < k ==> !Owed(subscribers[j], snapshot, calls)
      invariant left == if |calls| < refCount then refCount - |calls| else 0
      decreases unmarked, |subscribers| - k
    {
      var cookie := subscribers[k].cookie;
      if !subscribers[k].Callable() {
        k := k + 1;
      } else if cookie in marked && !marked[cookie] {
        CallExtendsLog(calls, snapshot, history, k);
        MarkOneMore(marked, unmarked, snapshot, calls, cookie);
        marked := marked[cookie := true];
        unmarked := unmarked - {cookie};
        calls := calls + [cookie];
        subscribers := history(|calls|);
        k := 0;
        left := if left > 0 then left - 1 else left;
      } else {
        k := k + 1;
      }
    }
  }

  /** Nobody is called twice, and nobody who was not on the list at the start. */
  lemma {:induction false} CallsAreDistinctSnapshotMembers(calls: seq<int>, snapshot: set<int>, history: History)
    requires IsCallLog(calls, snapshot, history)
    ensures forall i, j :: 0 <= i < j < |calls| ==> calls[i] != calls[j]
    ensures forall c <- calls :: c in snapshot
  {
    forall i | 0 <= i < |calls|
      ensures calls[i] in snapshot && calls[i] !in calls[..i]
    {
      CallLogAt(calls, snapshot, history, i);
    }
    forall i, j | 0 <= i < j < |calls| ensures calls[i] != calls[j] {
      assert calls[..j][i] == calls[i];
    }
  }

  /** A subscriber of the snapshot that is on the list at the end, with a callback and a
      cookie, was called. */
  lemma SurvivorsAreCalled(calls: seq<int>, snapshot: set<int>, history: History, s: Subscriber)
    requires IsComplete(calls, snapshot, history)
    requires s in history(|calls|) && s.callback && s.cookie != 0 && s.cookie in snapshot
    ensures s.cookie in calls
  {
  }

  /** Every call goes to a cookie of the start that has a callback on the list at that moment and has not been called; whoever
      stands before it on the list has been called already, or has not been there at the start, or cannot be called. */
  lemma CalledWhileSubscribed(calls: seq<int>, snapshot: set<int>, history: History, i: nat)
    requires IsCallLog(calls, snapshot, history) && i < |calls|
    ensures exists k :: 0 <= k < |history(i)| && CallsAt(calls, snapshot, history, i, k)
  {
    CallLogAt(calls, snapshot, history, i);
    var k :| && 0 <= k < |history(i)| && history(i)[k].cookie == calls[i] && Owed(history(i)[k], snapshot, calls[..i])
             && forall j :: 0 <= j < k ==> !Owed(history(i)[j], snapshot, calls[..i]);
    assert CallsAt(calls, snapshot, history, i, k);
  }

  /** Call `i` goes to the entry `k` of the list. */
  ghost predicate CallsAt(calls: seq<int>, snapshot: set<int>, history: History, i: nat, k: nat)
    requires i < |calls| && k < |history(i)|
  {
    var subscribers := history(i);
    && subscribers[k].cookie == calls[i] != 0 && subscribers[k].callback && calls[i] in snapshot && calls[i] !in calls[..i]
    && forall j :: 0 <= j < k ==>
         || subscribers[j].cookie in calls[..i] || subscribers[j].cookie !in snapshot
         || subscribers[j].cookie == 0 || !subscribers[j].callback
  }

  /** The calls are determined by how the list changes: two complete logs are the same log. */
  lemma CallLogIsUnique(calls: seq<int>, calls': seq<int>, snapshot: set<int>, history: History)
    requires IsCallLog(calls, snapshot, history) && IsComplete(calls, snapshot, history)
    requires IsCallLog(calls', snapshot, history) && IsComplete(calls', snapshot, history)
    ensures calls == calls'
  {
    var n := if |calls| <= |calls'| then |calls| else |calls'|;
    CallLogsAgree(calls, calls', snapshot, history, n);
    if |calls| <= |calls'| {
      assert calls[..n] == calls;
      NoCallAfterCompletion(calls, calls', snapshot, history);
    } else {
      assert calls'[..n] == calls';
      NoCallAfterCompletion(calls', calls, snapshot, history);
    }
    assert calls[..n] == calls && calls'[..n] == calls';
  }

  lemma NoCallAfterCompletion(calls: seq<int>, longer: seq<int>, snapshot: set<int>, history: History)
    requires IsComplete(calls, snapshot, history) && IsCallLog(longer, snapshot, history)
    requires |calls| <= |longer| && longer[..|calls|] == calls
    ensures |longer| == |calls|
  {
    var n := |calls|;
    if n < |longer| {
      CallLogAt(longer, snapshot, history, n);
    }
  }

  lemma {:induction false} CallLogsAgree(calls: seq<int>, calls': seq<int>, snapshot: set<int>, history: History, n: nat)
    requires IsCallLog(calls, snapshot, history) && IsCallLog(calls', snapshot, history)
    requires n <= |calls| && n <= |calls'|
    ensures calls[..n] == calls'[..n]
  {
    if n > 0 {
      CallLogsAgree(calls, calls', snapshot, history, n - 1);
      CallLogAt(calls, snapshot, history, n - 1);
      CallLogAt(calls', snapshot, history, n - 1);
      assert calls[..n] == calls[..n - 1] + [calls[n - 1]];
      assert calls'[..n] == calls'[..n - 1] + [calls'[n - 1]];
    }
  }

  // --- A list that stays as it is ---

  /** The cookies that can be called, in the order of the list. */
  function CallableCookies(subscribers: seq<Subscriber>): seq<int> {
    if subscribers == [] then []
    else
      var last := subscribers[|subscribers| - 1];
      CallableCookies(subscribers[..|subscribers| - 1]) + if last.callback && last.cookie != 0 then [last.cookie] else []
  }

  lemma {:induction false} CallableCookiesAre(subscribers: seq<Subscriber>, cookie: int)
    ensures cookie in CallableCookies(subscribers) <==> cookie != 0 && Subscriber(cookie, true) in subscribers
  {
    if subscribers != [] {
      var init, last := subscribers[..|subscribers| - 1], subscribers[|subscribers| - 1];
      CallableCookiesAre(init, cookie);
      assert subscribers == init + [last];
    }
  }

  lemma CookieIsNew(subscribers: seq<Subscriber>, k: nat)
    requires UniqueCookies(subscribers) && k < |subscribers|
    ensures subscribers[k].cookie !in CallableCookies(subscribers[..k]) && subscribers[k].cookie in Cookies(subscribers)
  {
    CallableCookiesAre(subscribers[..k], subscribers[k].cookie);
  }

  ghost predicate NoneOwed(subscribers: seq<Subscriber>, n: nat, snapshot: set<int>, calls: seq<int>)
    requires n <= |subscribers|
  {
    forall j :: 0 <= j < n ==> !Owed(subscribers[j], snapshot, calls)
  }

  /** Calling the first `n` subscribers of the list in turn is what the loop does. */
  lemma {:induction false} FirstAreCalled(subscribers: seq<Subscriber>, history: History, n: nat)
    requires UniqueCookies(subscribers) && (forall i :: history(i) == subscribers) && n <= |subscribers|
    ensures IsCallLog(CallableCookies(subscribers[..n]), Cookies(subscribers), history)
    ensures NoneOwed(subscribers, n, Cookies(subscribers), CallableCookies(subscribers[..n]))
  {
    if n > 0 {
      var calls := CallableCookies(subscribers[..n - 1]);
      FirstAreCalled(subscribers, history, n - 1);
      CookieIsNew(subscribers, n - 1);
      NextIsCalled(subscribers, history, n - 1, calls);
      assert subscribers[..n][..n - 1] == subscribers[..n - 1];
    } else {
      assert CallableCookies(subscribers[..0]) == [];
    }
  }

  lemma NextIsCalled(subscribers: seq<Subscriber>, history: History, k: nat, calls: seq<int>)
    requires history(|calls|) == subscribers && k < |subscribers|
    requires IsCallLog(calls, Cookies(subscribers), history) && NoneOwed(subscribers, k, Cookies(subscribers), calls)
    requires subscribers[k].cookie !in calls && subscribers[k].cookie in Cookies(subscribers)
    ensures var longer := calls + if subscribers[k].callback && subscribers[k].cookie != 0 then [subscribers[k].cookie] else [];
            IsCallLog(longer, Cookies(subscribers), history) && NoneOwed(subscribers, k + 1, Cookies(subscribers), longer)
  {
    if subscribers[k].Callable() {
      CallExtendsLog(calls, Cookies(subscribers), history, k);
    } else {
      assert calls + [] == calls;
    }
  }

  /** If no callback changes the list, everybody with a callback and a cookie is called once, in the order of the list. */
  lemma SteadyListIsCalledInOrder(calls: seq<int>, history: History)
    requires UniqueCookies(history(0)) && forall i :: history(i) == history(0)
    requires IsCallLog(calls, Cookies(history(0)), history) && IsComplete(calls, Cookies(history(0)), history)
    ensures calls == CallableCookies(history(0))
  {
    var subscribers := history(0);
    FirstAreCalled(subscribers, history, |subscribers|);
    assert subscribers[..|subscribers|] == subscribers;
    CallLogIsUnique(calls, CallableCookies(subscribers), Cookies(subscribers), history);
  }

  // --- Conservation ---

  lemma {:induction false} DistinctMembersFit<T>(xs: seq<T>, s: set<T>)
    requires forall i, j :: 0 <= i < j < |xs| ==> xs[i] != xs[j]
    requires forall x <- xs :: x in s
    ensures |xs| <= |s|
  {
    if xs != [] {
      assert xs[0] in xs;
      forall x | x in xs[1..] ensures x in s - {xs[0]} {
        var i :| 0 <= i < |xs[1..]| && xs[1..][i] == x;
        assert xs[0] != xs[i + 1];
      }
      DistinctMembersFit(xs[1..], s - {xs[0]});
    }
  }

  lemma {:induction false} CookiesFit(subscribers: seq<Subscriber>)
    ensures |Cookies(subscribers)| <= |subscribers|
    ensures UniqueCookies(subscribers) ==> |Cookies(subscribers)| == |subscribers|
  {
    if subscribers != [] {
      var rest := subscribers[1..];
      CookiesFit(rest);
      assert subscribers == [subscribers[0]] + rest;
      assert Cookies(subscribers) == {subscribers[0].cookie} + Cookies(rest);
    }
  }

  /** Calls and immediate returns together use up the reference count, and never less: a frame
      counted for every subscriber comes back exactly once for each of them. */
  lemma EveryCountIsCalledOrReturned(calls: seq<int>, left: nat, refCount: nat, history: History)
    requires IsCallLog(calls, Cookies(history(0)), history)
    requires left == if |calls| < refCount then refCount - |calls| else 0
    ensures |calls| + left == if |calls| < refCount then refCount else |calls|
    ensures refCount == |history(0)| ==> |calls| + left == refCount
  {
    CallsAreDistinctSnapshotMembers(calls, Cookies(history(0)), history);
    DistinctMembersFit(calls, Cookies(history(0)));
    CookiesFit(history(0));
  }
}
