/**
 The thermal watcher (thermal/ThermalHelper.cpp:284-326, 573-629): from readings of the monitored sensors to
 notifications.
 */
module ThermalWatcher {
  import opened Wrappers
  import opened ThermalSeverity

  datatype SensorName = SensorName(text: string)

  datatype SensorInfo = SensorInfo(hot: Levels, cold: Levels, isMonitor: bool) {
    ghost predicate Valid() {
      hot.Complete() && cold.Complete()
    }
  }

  datatype SensorStatus = SensorStatus(severity: Severity, prevHot: Severity, prevCold: Severity)

  datatype Temperature = Temperature(name: SensorName, value: real, throttlingStatus: Severity)

  const QUIET := SensorStatus(NONE, NONE, NONE)

  function Max(a: Severity, b: Severity): Severity {
    if a > b then a else b
  }

  /** The status of a monitored sensor after a successful reading. */
  function Updated(info: SensorInfo, status: SensorStatus, value: real): SensorStatus
    requires info.hot.Complete() && info.cold.Complete()
  {
    var hot, cold := Next(info.hot, status.prevHot, value), Next(info.cold.Mirrored(), status.prevCold, -value);
    SensorStatus(Max(hot, cold), hot, cold)
  }

  function AfterReadings(info: SensorInfo, status: SensorStatus, values: seq<real>): SensorStatus
    requires info.hot.Complete() && info.cold.Complete()
  {
    if values == [] then status
    else Updated(info, AfterReadings(info, status, values[..|values| - 1]), values[|values| - 1])
  }

  /** Both directions of a sensor run independently of each other. */
  lemma {:induction false} DirectionsAreIndependent(info: SensorInfo, status: SensorStatus, values: seq<real>)
    requires info.hot.Complete() && info.cold.Complete()
    ensures var after := AfterReadings(info, status, values);
            && after.prevHot == SeverityAfter(info.hot, status.prevHot, values)
            && after.prevCold == SeverityAfter(info.cold.Mirrored(), status.prevCold, Negated(values))
  {
    if values != [] {
      var earlier, last := values[..|values| - 1], values[|values| - 1];
      DirectionsAreIndependent(info, status, earlier);
      assert values == earlier + [last] && Negated(values) == Negated(earlier) + [-last];
      OneMoreReading(info.hot, status.prevHot, earlier, last);
      OneMoreReading(info.cold.Mirrored(), status.prevCold, Negated(earlier), -last);
    }
  }

  function Negated(values: seq<real>): seq<real> {
    seq(|values|, i requires 0 <= i < |values| => -values[i])
  }

  lemma {:induction false} OneMoreReading(l: Levels, previous: Severity, vs: seq<real>, v: real)
    requires l.Complete()
    ensures SeverityAfter(l, previous, vs + [v]) == Next(l, SeverityAfter(l, previous, vs), v)
    decreases |vs|
  {
    if vs == [] {
      assert [v][1..] == [];
    } else {
      assert (vs + [v])[1..] == vs[1..] + [v];
      OneMoreReading(l, Next(l, previous, vs[0]), vs[1..], v);
    }
  }

  /**
   After any readings a sensor is throttled at a level or above exactly if in one of the directions the latch of
   that level or of a higher one is set; neither direction needs to use the level.
   */
  lemma ThrottledExactlyIfLatched(info: SensorInfo, values: seq<real>, s: Severity)
    requires info.hot.Orderly() && info.cold.Mirrored().Orderly() && 0 < s
    ensures s <= AfterReadings(info, QUIET, values).severity
       <==> LatchedAtOrAbove(info.hot, s, values) || LatchedAtOrAbove(info.cold.Mirrored(), s, Negated(values))
  {
    DirectionsAreIndependent(info, QUIET, values);
    RunsLatchSomeLevel(info.hot, s, values);
    RunsLatchSomeLevel(info.cold.Mirrored(), s, Negated(values));
    if values != [] {
      var earlier, last := values[..|values| - 1], values[|values| - 1];
      assert AfterReadings(info, QUIET, values) == Updated(info, AfterReadings(info, QUIET, earlier), last);
    }
  }

  // --- Notification logs ---

  /** What a listener that starts from NONE and follows the log believes about a sensor. */
  function Believed(log: seq<Temperature>, name: SensorName): Severity {
    if log == [] then NONE
    else if log[|log| - 1].name == name then log[|log| - 1].throttlingStatus
    else Believed(log[..|log| - 1], name)
  }

  /** Every notification tells its listener something new. */
  ghost predicate EachIsNews(log: seq<Temperature>) {
    log == []
    || (EachIsNews(log[..|log| - 1]) && log[|log| - 1].throttlingStatus != Believed(log[..|log| - 1], log[|log| - 1].name))
  }

  lemma {:induction false} NewsAt(log: seq<Temperature>, k: nat)
    requires EachIsNews(log) && k < |log|
    ensures log[k].throttlingStatus != Believed(log[..k], log[k].name)
  {
    if k < |log| - 1 {
      NewsAt(log[..|log| - 1], k);
      assert log[..|log| - 1][..k] == log[..k];
    }
  }

  lemma OneMoreNotification(log: seq<Temperature>, t: Temperature)
    requires EachIsNews(log) && t.throttlingStatus != Believed(log, t.name)
    ensures EachIsNews(log + [t])
    ensures forall name :: Believed(log + [t], name) == if name == t.name then t.throttlingStatus else Believed(log, name)
  {
    assert (log + [t])[..|log|] == log;
  }

  /** So any two neighbouring notifications of one sensor differ. */
  lemma NeighboursDiffer(log: seq<Temperature>, i: nat, j: nat)
    requires EachIsNews(log) && i < j < |log| && log[i].name == log[j].name
    requires forall k :: i < k < j ==> log[k].name != log[i].name
    ensures log[i].throttlingStatus != log[j].throttlingStatus
  {
    NewsAt(log, j);
    BelievedSince(log, i, j, log[i].name);
  }

  lemma {:induction false} BelievedSince(log: seq<Temperature>, i: nat, j: nat, name: SensorName)
    requires i < j <= |log| && log[i].name == name
    requires forall k :: i < k < j ==> log[k].name != name
    ensures Believed(log[..j], name) == log[i].throttlingStatus
  {
    if i < j - 1 {
      BelievedSince(log, i, j - 1, name);
      assert log[..j][..j - 1] == log[..j - 1];
    }
  }

  // --- One pass over the sensors ---

  /** A successful reading and the status it leads to. */
  datatype Reading = Reading(value: real, status: SensorStatus)

  /** What a call of the watcher works on; a sensor without a reading cannot be read. */
  datatype Round = Round(order: seq<SensorName>, monitored: set<SensorName>, uevents: set<SensorName>,
                         readings: map<SensorName, Reading>) {
    ghost predicate Valid() {
      && (forall i, j :: 0 <= i < j < |order| ==> order[i] != order[j])
      && (forall name :: name in readings ==> Settled(readings[name].status))
    }

    ghost predicate Covers(statuses: map<SensorName, SensorStatus>) {
      forall i :: 0 <= i < |order| ==> order[i] in statuses
    }

    predicate Selected(name: SensorName) {
      name in monitored && (uevents == {} || name in uevents)
    }

    /** Only a monitored sensor that is selected and can be read changes. */
    function Outcome(name: SensorName, before: SensorStatus): SensorStatus {
      if Selected(name) && name in readings then readings[name].status else before
    }

    /** A monitored sensor that is throttled keeps the watcher alert, unless reading it just failed. */
    predicate Alerts(name: SensorName, after: SensorStatus) {
      name in monitored && after.severity != NONE && (Selected(name) ==> name in readings)
    }

    /** A report is made of a changed severity only. */
    function NewsOf(name: SensorName, before: SensorStatus): Option<Temperature> {
      if Outcome(name, before).severity == before.severity then None
      else Some(Temperature(name, readings[name].value, Outcome(name, before).severity))
    }
  }

  predicate Settled(status: SensorStatus) {
    status.severity == Max(status.prevHot, status.prevCold)
  }

  datatype PassState = PassState(statuses: map<SensorName, SensorStatus>, temps: seq<Temperature>, triggered: bool)

  function Listed(news: Option<Temperature>): seq<Temperature> {
    if news.None? then [] else [news.value]
  }

  function Visited(r: Round, s: PassState, name: SensorName): PassState
    requires name in s.statuses
  {
    var before := s.statuses[name];
    PassState(s.statuses[name := r.Outcome(name, before)],
              s.temps + Listed(r.NewsOf(name, before)),
              s.triggered || r.Alerts(name, r.Outcome(name, before)))
  }

  /** The first `k` sensors have been visited. */
  function Pass(r: Round, k: nat, before: map<SensorName, SensorStatus>): (s: PassState)
    requires k <= |r.order| && r.Covers(before)
    ensures forall name :: name in s.statuses <==> name in before
  {
    if k == 0 then PassState(before, [], false) else Visited(r, Pass(r, k - 1, before), r.order[k - 1])
  }

  /** Each sensor is visited once: its new status depends on its own old status only. */
  lemma {:induction false} EachIsVisitedOnce(r: Round, k: nat, before: map<SensorName, SensorStatus>, i: nat)
    requires r.Valid() && k <= |r.order| && i < |r.order| && r.Covers(before)
    ensures Pass(r, k, before).statuses[r.order[i]]
         == if i < k then r.Outcome(r.order[i], before[r.order[i]]) else before[r.order[i]]
  {
    if k != 0 {
      EachIsVisitedOnce(r, k - 1, before, i);
    }
  }

  /** A pass goes on by one visit. */
  lemma VisitIsOneStep(r: Round, k: nat, before: map<SensorName, SensorStatus>, s: PassState, t: PassState,
                       news: Option<Temperature>, alert: bool)
    requires k < |r.order| && r.Covers(before)
    requires s == Pass(r, k, before) && r.order[k] in s.statuses
    requires news == r.NewsOf(r.order[k], s.statuses[r.order[k]])
    requires t.statuses == s.statuses[r.order[k] := r.Outcome(r.order[k], s.statuses[r.order[k]])]
    requires t.temps == s.temps + Listed(news)
    requires alert <==> r.Alerts(r.order[k], t.statuses[r.order[k]])
    requires t.triggered == (s.triggered || alert)
    ensures t == Pass(r, k + 1, before)
  {
  }

  predicate AlertsAt(r: Round, before: map<SensorName, SensorStatus>, i: nat)
    requires i < |r.order| && r.order[i] in before
  {
    r.Alerts(r.order[i], r.Outcome(r.order[i], before[r.order[i]]))
  }

  ghost predicate AlertsBefore(r: Round, before: map<SensorName, SensorStatus>, k: nat)
    requires k <= |r.order| && r.Covers(before)
  {
    k != 0 && (AlertsBefore(r, before, k - 1) || AlertsAt(r, before, k - 1))
  }

  lemma {:induction false} AlertsBeforeExactlyIf(r: Round, before: map<SensorName, SensorStatus>, k: nat)
    requires k <= |r.order| && r.Covers(before)
    ensures AlertsBefore(r, before, k) <==> exists i: nat :: i < k && AlertsAt(r, before, i)
  {
    if k != 0 {
      AlertsBeforeExactlyIf(r, before, k - 1);
    }
  }

  lemma {:induction false} TriggeredByAlertsBefore(r: Round, k: nat, before: map<SensorName, SensorStatus>)
    requires r.Valid() && k <= |r.order| && r.Covers(before)
    ensures Pass(r, k, before).triggered <==> AlertsBefore(r, before, k)
  {
    if k != 0 {
      TriggeredByAlertsBefore(r, k - 1, before);
      EachIsVisitedOnce(r, k - 1, before, k - 1);
      TriggeredByLast(r, Pass(r, k - 1, before), k - 1, before);
    }
  }

  /** The watcher stays alert exactly for some sensor that is throttled and was not just unreadable. */
  lemma TriggeredExactlyByAlerts(r: Round, k: nat, before: map<SensorName, SensorStatus>)
    requires r.Valid() && k <= |r.order| && r.Covers(before)
    ensures Pass(r, k, before).triggered <==> exists i: nat :: i < k && AlertsAt(r, before, i)
  {
    TriggeredByAlertsBefore(r, k, before);
    AlertsBeforeExactlyIf(r, before, k);
  }

  lemma TriggeredByLast(r: Round, s: PassState, i: nat, before: map<SensorName, SensorStatus>)
    requires i < |r.order| && r.order[i] in before && r.order[i] in s.statuses
    requires s.statuses[r.order[i]] == before[r.order[i]]
    ensures Visited(r, s, r.order[i]).triggered <==> s.triggered || AlertsAt(r, before, i)
  {
  }

  /** The news of the first `k` sensors. */
  function NewsOfFirst(r: Round, k: nat, before: map<SensorName, SensorStatus>): seq<Temperature>
    requires k <= |r.order| && r.Covers(before)
  {
    if k == 0 then [] else NewsOfFirst(r, k - 1, before) + Listed(r.NewsOf(r.order[k - 1], before[r.order[k - 1]]))
  }

  lemma PassGoesOn(r: Round, k: nat, before: map<SensorName, SensorStatus>)
    requires 0 < k <= |r.order| && r.Covers(before)
    ensures Pass(r, k, before) == Visited(r, Pass(r, k - 1, before), r.order[k - 1])
  {
  }

  lemma LastIsAsBefore(r: Round, k: nat, before: map<SensorName, SensorStatus>)
    requires r.Valid() && 0 < k <= |r.order| && r.Covers(before)
    ensures var s, last := Pass(r, k - 1, before), r.order[k - 1];
            last in before && last in s.statuses && s.statuses[last] == before[last]
  {
    EachIsVisitedOnce(r, k - 1, before, k - 1);
  }

  lemma VisitReports(r: Round, s: PassState, name: SensorName, was: SensorStatus)
    requires name in s.statuses && s.statuses[name] == was
    ensures Visited(r, s, name).temps == s.temps + Listed(r.NewsOf(name, was))
  {
  }

  /** A pass reports the news of each sensor that has been visited. */
  lemma {:induction false} ReportsAreNews(r: Round, k: nat, before: map<SensorName, SensorStatus>)
    requires r.Valid() && k <= |r.order| && r.Covers(before)
    ensures Pass(r, k, before).temps == NewsOfFirst(r, k, before)
  {
    if k != 0 {
      ReportsAreNews(r, k - 1, before);
      var s, last := Pass(r, k - 1, before), r.order[k - 1];
      LastIsAsBefore(r, k, before);
      PassGoesOn(r, k, before);
      VisitReports(r, s, last, before[last]);
    }
  }

  lemma {:induction false} ListedAsNews(r: Round, k: nat, before: map<SensorName, SensorStatus>, t: Temperature)
    requires k <= |r.order| && r.Covers(before)
    ensures t in NewsOfFirst(r, k, before) <==> IsNewsOfFirst(r, k, before, t)
  {
    if k != 0 {
      ListedAsNews(r, k - 1, before, t);
    }
  }

  predicate IsNewsOfFirst(r: Round, k: nat, before: map<SensorName, SensorStatus>, t: Temperature)
    requires k <= |r.order|
  {
    IsAmong(r.order, k, t.name) && t.name in before && r.NewsOf(t.name, before[t.name]) == Some(t)
  }

  /** One of the first `k`. */
  predicate IsAmong(order: seq<SensorName>, k: nat, name: SensorName)
    requires k <= |order|
  {
    k != 0 && (order[k - 1] == name || IsAmong(order, k - 1, name))
  }

  lemma {:induction false} IsAmongAll(order: seq<SensorName>, k: nat, name: SensorName)
    requires k <= |order|
    ensures IsAmong(order, k, name) <==> name in order[..k]
  {
    if k != 0 {
      IsAmongAll(order, k - 1, name);
      assert order[..k] == order[..k - 1] + [order[k - 1]];
    }
  }

  lemma {:induction false} LastIsNew(order: seq<SensorName>, k: nat, n: nat)
    requires n < k <= |order| && forall i, j :: 0 <= i < j < |order| ==> order[i] != order[j]
    ensures !IsAmong(order, n, order[k - 1])
  {
    if n != 0 {
      LastIsNew(order, k, n - 1);
    }
  }

  ghost predicate EachIsNamedOnce(temps: seq<Temperature>) {
    forall i, j :: 0 <= i < j < |temps| ==> temps[i].name != temps[j].name
  }

  lemma {:induction false} SensorsAreReportedOnce(r: Round, k: nat, before: map<SensorName, SensorStatus>)
    requires r.Valid() && k <= |r.order| && r.Covers(before)
    ensures EachIsNamedOnce(NewsOfFirst(r, k, before))
  {
    if k != 0 {
      var temps, last := NewsOfFirst(r, k - 1, before), r.order[k - 1];
      SensorsAreReportedOnce(r, k - 1, before);
      forall t | t in temps ensures t.name != last {
        ListedAsNews(r, k - 1, before, t);
        LastIsNew(r.order, k, k - 1);
      }
      OneMoreIsNamed(temps, r.NewsOf(last, before[last]), last);
    }
  }

  lemma OneMoreIsNamed(temps: seq<Temperature>, news: Option<Temperature>, name: SensorName)
    requires EachIsNamedOnce(temps) && (forall t :: t in temps ==> t.name != name) && (news.Some? ==> news.value.name == name)
    ensures EachIsNamedOnce(temps + Listed(news))
  {
  }

  // --- What a call does, sensor by sensor ---

  /** The configuration, what a call finds and is given, and what it leaves. */
  datatype Watch = Watch(info: map<SensorName, SensorInfo>, uevents: set<SensorName>, values: map<SensorName, real>,
                         before: map<SensorName, SensorStatus>, after: map<SensorName, SensorStatus>,
                         temps: seq<Temperature>, triggered: bool)
  {
    predicate WellFormed() {
      && before.Keys == info.Keys && after.Keys == info.Keys
      && forall name :: name in info ==> info[name].hot.Complete() && info[name].cold.Complete()
    }

    /** A sensor that is asked for and can be read has the status its reading leads to; all others keep theirs. */
    ghost predicate FollowsReading(name: SensorName)
      requires WellFormed() && name in info
    {
      after[name] == if info[name].isMonitor && (uevents == {} || name in uevents) && name in values
                     then Updated(info[name], before[name], values[name]) else before[name]
    }

    /** A report is of a changed severity, with the value read and the new severity. */
    ghost predicate ReportsChange(t: Temperature)
      requires WellFormed()
    {
      && t.name in info && before[t.name].severity != after[t.name].severity && t.name in values
      && t == Temperature(t.name, values[t.name], after[t.name].severity)
    }

    /** A monitored sensor is throttled, unless it was asked for and cannot be read. */
    ghost predicate IsThrottled(name: SensorName)
      requires WellFormed() && name in info
    {
      && info[name].isMonitor && after[name].severity != NONE
      && !((uevents == {} || name in uevents) && name !in values)
    }

    /** The round of the call. */
    ghost predicate IsRound(r: Round)
      requires WellFormed()
    {
      && r.Valid() && r.uevents == uevents
      && (forall i :: 0 <= i < |r.order| ==> r.order[i] in info)
      && (forall name :: name in info ==> name in r.order)
      && (forall name :: name in info ==> Prepared(r, info[name], name, before[name], values))
    }
  }

  /** The round agrees with a sensor's configuration and with its old status. */
  ghost predicate Prepared(r: Round, info: SensorInfo, name: SensorName, before: SensorStatus,
                           values: map<SensorName, real>) {
    && info.Valid()
    && (name in r.monitored <==> info.isMonitor)
    && (name in r.readings <==> name in values)
    && (name in values ==> r.readings[name] == Reading(values[name], Updated(info, before, values[name])))
  }

  lemma CallFollowsReadings(w: Watch, r: Round, name: SensorName)
    requires w.WellFormed() && w.IsRound(r) && w.after == Pass(r, |r.order|, w.before).statuses
    ensures name in w.info ==> w.after[name] == r.Outcome(name, w.before[name]) && w.FollowsReading(name)
  {
    if name in w.info {
      var i := IndexOf(r.order, name);
      EachIsVisitedOnce(r, |r.order|, w.before, i);
    }
  }

  lemma CallReportsChanges(w: Watch, r: Round, t: Temperature)
    requires w.WellFormed() && w.IsRound(r)
    requires w.after == Pass(r, |r.order|, w.before).statuses && w.temps == Pass(r, |r.order|, w.before).temps
    ensures t in w.temps <==> w.ReportsChange(t)
  {
    ReportsAreNews(r, |r.order|, w.before);
    ListedAsNews(r, |r.order|, w.before, t);
    IsAmongAll(r.order, |r.order|, t.name);
    assert r.order[..|r.order|] == r.order;
    if t.name in w.info {
      CallFollowsReadings(w, r, t.name);
    }
  }

  lemma IndexOf(order: seq<SensorName>, name: SensorName) returns (i: nat)
    requires name in order
    ensures i < |order| && order[i] == name
  {
    i :| 0 <= i < |order| && order[i] == name;
  }

  lemma CallStaysAlert(w: Watch, r: Round)
    requires w.WellFormed() && w.IsRound(r)
    requires w.after == Pass(r, |r.order|, w.before).statuses && w.triggered == Pass(r, |r.order|, w.before).triggered
    ensures w.triggered <==> exists name :: name in w.info && w.IsThrottled(name)
  {
    TriggeredExactlyByAlerts(r, |r.order|, w.before);
    if i: nat :| i < |r.order| && AlertsAt(r, w.before, i) {
      ThrottledAlerts(w, r, i);
    }
    if name :| name in w.info && w.IsThrottled(name) {
      var i := IndexOf(r.order, name);
      ThrottledAlerts(w, r, i);
    }
  }

  /** A call as a whole. */
  lemma CallIsExplicit(w: Watch, r: Round)
    requires w.WellFormed() && w.IsRound(r)
    requires PassState(w.after, w.temps, w.triggered) == Pass(r, |r.order|, w.before)
    ensures forall name :: name in w.info ==> w.FollowsReading(name)
    ensures forall t :: t in w.temps <==> w.ReportsChange(t)
    ensures forall name :: name in w.info && w.before[name].severity != w.after[name].severity ==> name in w.values
    ensures EachIsNamedOnce(w.temps)
    ensures w.triggered <==> exists name :: name in w.info && w.IsThrottled(name)
  {
    forall name | name in w.info ensures w.FollowsReading(name) {
      CallFollowsReadings(w, r, name);
    }
    forall t ensures t in w.temps <==> w.ReportsChange(t) {
      CallReportsChanges(w, r, t);
    }
    ReportsAreNews(r, |r.order|, w.before);
    SensorsAreReportedOnce(r, |r.order|, w.before);
    CallStaysAlert(w, r);
  }

  lemma ThrottledAlerts(w: Watch, r: Round, i: nat)
    requires w.WellFormed() && w.IsRound(r) && i < |r.order| && w.after == Pass(r, |r.order|, w.before).statuses
    ensures AlertsAt(r, w.before, i) <==> w.IsThrottled(r.order[i])
  {
    CallFollowsReadings(w, r, r.order[i]);
  }

  // --- The log and the statuses ---

  /** Stored severities agree with the log and with the severities of both directions. */
  ghost predicate Agree(statuses: map<SensorName, SensorStatus>, log: seq<Temperature>) {
    forall name :: name in statuses ==>
      Settled(statuses[name]) && statuses[name].severity == Believed(log, name)
  }

  /** Statuses and reports of a pass agree with the log before it. */
  ghost predicate Continues(s: PassState, log: seq<Temperature>) {
    Agree(s.statuses, log + s.temps) && EachIsNews(log + s.temps)
  }

  /** Whatever is selected and whatever can be read, a pass keeps the log in agreement and reports only news. */
  lemma {:induction false} PassKeepsAgreement(r: Round, k: nat, before: map<SensorName, SensorStatus>, log: seq<Temperature>)
    requires r.Valid() && k <= |r.order| && r.Covers(before)
    requires Agree(before, log) && EachIsNews(log)
    ensures Continues(Pass(r, k, before), log)
  {
    if k == 0 {
      assert log + [] == log;
    } else {
      PassKeepsAgreement(r, k - 1, before, log);
      LastIsAsBefore(r, k, before);
      VisitKeepsAgreement(r, Pass(r, k - 1, before), r.order[k - 1], log);
      PassGoesOn(r, k, before);
    }
  }

  lemma VisitKeepsAgreement(r: Round, s: PassState, name: SensorName, log: seq<Temperature>)
    requires r.Valid() && name in s.statuses && Continues(s, log)
    ensures Continues(Visited(r, s, name), log)
  {
    var before := s.statuses[name];
    var after, news := r.Outcome(name, before), r.NewsOf(name, before);
    assert Settled(before) && Settled(after);
    if news.None? {
      assert s.temps + [] == s.temps;
      StatusKeepsAgreement(s.statuses, log + s.temps, name, after);
    } else {
      ReportKeepsAgreement(s.statuses, log + s.temps, name, after, news.value);
      assert log + (s.temps + [news.value]) == log + s.temps + [news.value];
    }
  }

  lemma StatusKeepsAgreement(statuses: map<SensorName, SensorStatus>, log: seq<Temperature>, name: SensorName,
                             after: SensorStatus)
    requires Agree(statuses, log) && Settled(after) && name in statuses && after.severity == statuses[name].severity
    ensures Agree(statuses[name := after], log)
  {
  }

  lemma ReportKeepsAgreement(statuses: map<SensorName, SensorStatus>, log: seq<Temperature>, name: SensorName,
                             after: SensorStatus, t: Temperature)
    requires Agree(statuses, log) && EachIsNews(log) && Settled(after) && name in statuses
    requires t.name == name && t.throttlingStatus == after.severity != statuses[name].severity
    ensures Agree(statuses[name := after], log + [t]) && EachIsNews(log + [t])
  {
    OneMoreNotification(log, t);
  }

  // --- The helper ---

  class ThermalHelper {
    const sensorInfo: map<SensorName, SensorInfo>
    /** The sensors in the order in which the map of their status is traversed. */
    const order: seq<SensorName>
    var sensorStatus: map<SensorName, SensorStatus>
    /** All temperatures handed to the notification callback. */
    var sent: seq<Temperature>

    ghost predicate Configured() {
      && (forall name :: name in sensorInfo ==> sensorInfo[name].Valid())
      && (forall i, j :: 0 <= i < j < |order| ==> order[i] != order[j])
      && (forall name :: name in order <==> name in sensorInfo)
    }

    ghost predicate Valid()
      reads this
    {
      Configured() && sensorStatus.Keys == sensorInfo.Keys && EachIsNews(sent) && Agree(sensorStatus, sent)
    }

    /** What a call of the watcher works on, given the numbers that can be read. */
    ghost function Call(uevents: set<SensorName>, values: map<SensorName, real>): (r: Round)
      requires Configured() && sensorStatus.Keys == sensorInfo.Keys
      reads this
      ensures r.order == order && r.uevents == uevents
      ensures forall name :: name in r.monitored <==> name in sensorInfo && sensorInfo[name].isMonitor
      ensures forall name :: name in r.readings <==> name in values && name in sensorInfo
      ensures forall name :: name in r.readings
                ==> r.readings[name] == Reading(values[name], Updated(sensorInfo[name], sensorStatus[name], values[name]))
      ensures r.Valid()
    {
      Round(order, (set name | name in sensorInfo && sensorInfo[name].isMonitor), uevents,
            map name | name in values && name in sensorInfo
              :: Reading(values[name], Updated(sensorInfo[name], sensorStatus[name], values[name])))
    }

    constructor (info: map<SensorName, SensorInfo>, names: seq<SensorName>)
      requires forall name :: name in info ==> info[name].Valid()
      requires forall i, j :: 0 <= i < j < |names| ==> names[i] != names[j]
      requires forall name :: name in names <==> name in info
      ensures Valid() && sent == [] && sensorInfo == info && order == names
      ensures forall name :: name in info ==> sensorStatus[name] == QUIET
    {
      sensorInfo, order, sent := info, names, [];
      sensorStatus := map name | name in info :: QUIET;
    }

    /** A failed read leaves no result; an unmonitored sensor is not throttled. */
    method ReadTemperature(name: SensorName, readings: map<SensorName, real>)
      returns (out: Option<Temperature>, status: (Severity, Severity))
      requires name in sensorInfo && name in sensorStatus && sensorInfo[name].Valid()
      ensures out.Some? <==> name in readings
      ensures name in readings && sensorInfo[name].isMonitor ==>
                var updated := Updated(sensorInfo[name], sensorStatus[name], readings[name]);
                out.value == Temperature(name, readings[name], updated.severity)
                && status == (updated.prevHot, updated.prevCold)
      ensures name in readings && !sensorInfo[name].isMonitor ==> out.value == Temperature(name, readings[name], NONE)
    {
      status := (NONE, NONE);
      if name !in readings {
        return None, status;
      }
      var info := sensorInfo[name];
      if info.isMonitor {
        var prevHot, prevCold := sensorStatus[name].prevHot, sensorStatus[name].prevCold;
        var hot, cold := GetSeverityFromThresholds(info.hot, info.cold, prevHot, prevCold, readings[name]);
        status := (hot, cold);
      }
      out := Some(Temperature(name, readings[name], if status.0 > status.1 then status.0 else status.1));
    }

    /** One sensor: its new status, a temperature to report if the severity changed, and whether to stay alert. */
    method Visit(name: SensorName, uevents: set<SensorName>, readings: map<SensorName, real>, ghost r: Round)
      returns (news: Option<Temperature>, alert: bool)
      requires r.uevents == uevents && name in sensorStatus
      requires name in sensorInfo && Prepared(r, sensorInfo[name], name, sensorStatus[name], readings)
      modifies this`sensorStatus
      ensures sensorStatus == old(sensorStatus)[name := r.Outcome(name, old(sensorStatus)[name])]
      ensures news == r.NewsOf(name, old(sensorStatus)[name])
      ensures alert <==> r.Alerts(name, sensorStatus[name])
    {
      news, alert := None, false;
      var stored := sensorStatus[name];
      if !sensorInfo[name].isMonitor {
        return;
      }
      if uevents != {} && name !in uevents {
        alert := stored.severity != NONE;
        return;
      }
      var temp, status := ReadTemperature(name, readings);
      if temp.None? {
        return;
      }
      if temp.value.throttlingStatus != stored.severity {
        news := temp;
      }
      sensorStatus := sensorStatus[name := SensorStatus(temp.value.throttlingStatus, status.0, status.1)];
      alert := sensorStatus[name].severity != NONE;
    }

    /** The loop over the sensors. */
    method VisitAll(uevents: set<SensorName>, readings: map<SensorName, real>, ghost r: Round)
      returns (temps: seq<Temperature>, thermalTriggered: bool)
      requires r.Valid() && r.uevents == uevents && r.order == order
      requires forall i :: 0 <= i < |order| ==> order[i] in sensorStatus && order[i] in sensorInfo
      requires forall i :: 0 <= i < |order| ==>
                 Prepared(r, sensorInfo[order[i]], order[i], sensorStatus[order[i]], readings)
      modifies this`sensorStatus
      ensures PassState(sensorStatus, temps, thermalTriggered) == Pass(r, |order|, old(sensorStatus))
    {
      temps, thermalTriggered := [], false;
      var k: nat := 0;
      ghost var before, passed := sensorStatus, PassState(sensorStatus, [], false);
      while k < |order|
        invariant k <= |order| && passed == Pass(r, k, before)
        invariant passed == PassState(sensorStatus, temps, thermalTriggered)
      {
        EachIsVisitedOnce(r, k, before, k);
        var news, alert := Visit(order[k], uevents, readings, r);
        if news.Some? {
          temps := temps + [news.value];
        }
        assert temps == passed.temps + Listed(news);
        thermalTriggered := thermalTriggered || alert;
        ghost var now := PassState(sensorStatus, temps, thermalTriggered);
        VisitIsOneStep(r, k, before, passed, now, news, alert);
        k, passed := k + 1, now;
      }
    }

    /** The watcher's callback: reads the selected sensors and reports those whose severity changed, all at once. */
    method ThermalWatcherCallback(uevents: set<SensorName>, readings: map<SensorName, real>)
      returns (thermalTriggered: bool, ghost temps: seq<Temperature>)
      requires Valid()
      modifies this
      ensures Valid() && sent == old(sent) + temps
      ensures forall i :: 0 <= i < |order| ==> order[i] in old(sensorStatus)
      ensures PassState(sensorStatus, temps, thermalTriggered)
           == Pass(old(Call(uevents, readings)), |order|, old(sensorStatus))
      // The status of a sensor that is asked for and can be read follows its reading; all others stay as they are.
      ensures forall name :: name in sensorInfo ==>
                sensorStatus[name]
                == if sensorInfo[name].isMonitor && (uevents == {} || name in uevents) && name in readings
                   then Updated(sensorInfo[name], old(sensorStatus)[name], readings[name]) else old(sensorStatus)[name]
      // A sensor is reported once and exactly if its severity has changed, as read and with the new severity.
      ensures forall t :: t in temps <==>
                && t.name in sensorInfo && old(sensorStatus)[t.name].severity != sensorStatus[t.name].severity
                && t.name in readings && t == Temperature(t.name, readings[t.name], sensorStatus[t.name].severity)
      ensures forall name :: name in sensorInfo && old(sensorStatus)[name].severity != sensorStatus[name].severity
                ==> name in readings
      ensures forall i, j :: 0 <= i < j < |temps| ==> temps[i].name != temps[j].name
      // The watcher stays alert for a monitored sensor that is throttled, unless it was asked for and cannot be read.
      ensures thermalTriggered <==> exists name ::
                && name in sensorInfo && sensorInfo[name].isMonitor && sensorStatus[name].severity != NONE
                && !((uevents == {} || name in uevents) && name !in readings)
    {
      ghost var before, r := sensorStatus, Call(uevents, readings);
      OrderIsKnown();
      var temperatures;
      temperatures, thermalTriggered := VisitAll(uevents, readings, r);
      PassKeepsAgreement(r, |order|, before, sent);
      assert sensorStatus.Keys == before.Keys;
      temps := temperatures;
      CallIsExplicit(Watch(sensorInfo, uevents, readings, before, sensorStatus, temps, thermalTriggered), r);
      sent := sent + (if temperatures != [] then temperatures else []);
    }

    lemma OrderIsKnown()
      requires Configured() && sensorStatus.Keys == sensorInfo.Keys
      ensures forall i :: 0 <= i < |order| ==> order[i] in sensorInfo && order[i] in sensorStatus
    {
      forall i | 0 <= i < |order| ensures order[i] in sensorInfo.Keys {
        assert order[i] in order;
      }
    }
  }
}
