/**
 * The rolling window refines a breaker that forgets nothing: a ledger of every observation since
 * the circuit last closed, consulted in full whenever a failure arrives.
 */
module BreakerHistory {
  import opened BreakerSpec
  import opened TimeLog

  /** `seen` is the time of the latest observation, `asked` the probes admitted after the first. */
  datatype Ledger = Ledger(phase: Phase, openAt: int, log: seq<Observation>, seen: int, asked: int)

  const Blank := Ledger(Closed, 0, [], 0, 0)

  function Recent(log: seq<Observation>, now: int): seq<Observation>
  {
    Since(log, At, now - ROLLING_WINDOW)
  }

  /** The rule in words: of the last ten seconds, enough requests and a high enough share of failures. */
  predicate TooManyFailures(c: Config, log: seq<Observation>, now: int)
  {
    var recent := set i | 0 <= i < |log| && log[i].at >= now - ROLLING_WINDOW;
    var failed := set i | 0 <= i < |log| && log[i].at >= now - ROLLING_WINDOW && !log[i].success;
    |recent| >= c.minRequests && 100 * |failed| >= c.failureThreshold * |recent|
  }

  function LedgerStep(c: Config, l: Ledger, e: Event): Ledger
  {
    match e
    case Ask(at) =>
      if l.phase.Open? && at > l.openAt + c.openFor then l.(phase := HalfOpen, asked := 0)
      else if l.phase.HalfOpen? && l.asked < c.probes then l.(asked := l.asked + 1)
      else l
    case Good(at) =>
      if l.phase.Closed? then l.(log := l.log + [Observation(at, true)], seen := at)
      else if l.phase.HalfOpen? && l.asked >= c.probes then l.(phase := Closed, log := [])
      else l
    case Bad(at, later) =>
      if l.phase.Closed? then
        var log := l.log + [Observation(at, false)];
        if TooManyFailures(c, log, at) then l.(phase := Open, openAt := later, log := log, seen := at)
        else l.(log := log, seen := at)
      else if l.phase.HalfOpen? then l.(phase := Open, openAt := later)
      else l
  }

  function LedgerRun(c: Config, es: seq<Event>): Ledger
  {
    if es == [] then Blank else LedgerStep(c, LedgerRun(c, es[..|es| - 1]), es[|es| - 1])
  }

  predicate LedgerAdmits(c: Config, l: Ledger, now: int)
  {
    l.phase.Closed? || (l.phase.Open? && now > l.openAt + c.openFor) || (l.phase.HalfOpen? && l.asked < c.probes)
  }

  /** The window is the recent part of the ledger while closed, and empty otherwise. */
  ghost predicate Agrees(s: State, l: Ledger)
  {
    && s.phase == l.phase
    && s.openAt == l.openAt
    && (l.phase.HalfOpen? ==> s.halfOpenTotal == l.asked && s.halfOpenFailures == 0)
    && s.window == if l.phase.Closed? then Recent(l.log, l.seen) else []
  }

  ghost predicate Chronicle(l: Ledger, t: int)
  {
    && Sorted(l.log, At)
    && (forall i :: 0 <= i < |l.log| ==> l.log[i].at <= t)
    && (l.phase.Closed? && l.log != [] ==> l.seen <= t)
  }

  lemma {:induction false} RecordIsRecent(log: seq<Observation>, seen: int, success: bool, now: int)
    requires Sorted(log, At) && (forall i :: 0 <= i < |log| ==> log[i].at <= now)
    requires log == [] || seen <= now
    ensures Record(Recent(log, seen), success, now) == Recent(log + [Observation(now, success)], now)
  {
    hide Since, Stale;
    var o, cutoff := Observation(now, success), now - ROLLING_WINDOW;
    var longer := Recent(log, seen) + [o];
    SinceIsSorted(log, At, seen - ROLLING_WINDOW);
    forall i | 0 <= i < |Recent(log, seen)| ensures longer[i].at <= now {
      assert longer[i] in Recent(log, seen);
    }
    EvictionIsFilter(longer, At, cutoff);
    SinceAppend(Recent(log, seen), o, At, cutoff);
    SinceAppend(log, o, At, cutoff);
    if log != [] {
      EarlierPruneIsHarmless(log, At, seen - ROLLING_WINDOW, cutoff);
    }
  }

  /** The recent part of the log is as long as there are recent observations. */
  lemma {:induction false} RecentIsCounted(log: seq<Observation>, now: int)
    ensures |Recent(log, now)| == |set i | 0 <= i < |log| && log[i].at >= now - ROLLING_WINDOW|
    decreases |log|
  {
    hide Since;
    if log == [] {
      NoneSince(now);
    } else {
      var n, o := |log| - 1, log[|log| - 1];
      RecentIsCounted(log[..n], now);
      assert log[..n] + [o] == log;
      SinceAppend(log[..n], o, At, now - ROLLING_WINDOW);
      var recent := set i | 0 <= i < n && log[..n][i].at >= now - ROLLING_WINDOW;
      assert (set i | 0 <= i < |log| && log[i].at >= now - ROLLING_WINDOW)
          == if o.at >= now - ROLLING_WINDOW then recent + {n} else recent;
    }
  }

  /** And it fails as often as they do. */
  lemma {:induction false} RecentFailuresAreCounted(log: seq<Observation>, now: int)
    ensures Failures(Recent(log, now))
         == |set i | 0 <= i < |log| && log[i].at >= now - ROLLING_WINDOW && !log[i].success|
    decreases |log|
  {
    hide Since, Failures;
    if log == [] {
      NoneSince(now);
      FailuresAreCounted([]);
    } else {
      var n, o := |log| - 1, log[|log| - 1];
      RecentFailuresAreCounted(log[..n], now);
      assert log[..n] + [o] == log;
      SinceAppend(log[..n], o, At, now - ROLLING_WINDOW);
      FailuresAppend(Recent(log[..n], now), o);
      var failed := set i | 0 <= i < n && log[..n][i].at >= now - ROLLING_WINDOW && !log[..n][i].success;
      assert (set i | 0 <= i < |log| && log[i].at >= now - ROLLING_WINDOW && !log[i].success)
          == if o.at >= now - ROLLING_WINDOW && !o.success then failed + {n} else failed;
      assert Recent(log[..n], now) + [] == Recent(log[..n], now);
    }
  }

  lemma {:induction false} NoneSince(now: int)
    ensures Recent([], now) == []
  {
  }

  lemma {:induction false} TripsIsTooMany(c: Config, log: seq<Observation>, now: int)
    requires |Recent(log, now)| >= 1
    ensures Trips(c, Recent(log, now)) <==> TooManyFailures(c, log, now)
  {
    hide Failures, Recent;
    RecentIsCounted(log, now);
    RecentFailuresAreCounted(log, now);
    PercentageIsExact(Failures(Recent(log, now)), |Recent(log, now)|, c.failureThreshold);
  }

  lemma {:induction false} StepAgrees(c: Config, s: State, l: Ledger, e: Event, t: int)
    requires Agrees(s, l) && Chronicle(l, t) && t <= Start(e) <= End(e)
    ensures Agrees(Step(c, s, e), LedgerStep(c, l, e)) && Chronicle(LedgerStep(c, l, e), End(e))
  {
    hide Since, Stale, Failures, Record, TooManyFailures;
    if l.phase.Closed? && !e.Ask? {
      RecordIsRecent(l.log, l.seen, e.Good?, e.at);
      TripsIsTooMany(c, l.log + [Observation(e.at, e.Good?)], e.at);
    }
  }

  /** In every run the breaker and the ledger are in the same phase and hold the same recent past. */
  lemma {:induction false} WindowRefinesHistory(c: Config, es: seq<Event>)
    requires Timely(0, es)
    ensures Agrees(Run(c, Fresh, es), LedgerRun(c, es))
    ensures Chronicle(LedgerRun(c, es), EndOf(0, es))
    decreases |es|
  {
    if es != [] {
      var n := |es| - 1;
      WindowRefinesHistory(c, es[..n]);
      StepAgrees(c, Run(c, Fresh, es[..n]), LedgerRun(c, es[..n]), es[n], EndOf(0, es[..n]));
    }
  }

  /** So in every run each request is admitted exactly when the ledger would admit it. */
  lemma {:induction false} DecisionsRefineHistory(c: Config, es: seq<Event>, now: int)
    requires Timely(0, es)
    ensures Admits(c, Run(c, Fresh, es), now) <==> LedgerAdmits(c, LedgerRun(c, es), now)
  {
    WindowRefinesHistory(c, es);
  }

  lemma {:induction false} TripsOnTooMany(c: Config, es: seq<Event>, e: Event)
    requires Timely(0, es + [e]) && LedgerRun(c, es).phase.Closed?
    ensures Run(c, Fresh, es).phase.Closed?
    ensures Step(c, Run(c, Fresh, es), e).phase.Open? <==>
              e.Bad? && TooManyFailures(c, LedgerRun(c, es).log + [Observation(e.at, false)], e.at)
  {
    hide TooManyFailures;
    assert (es + [e])[..|es|] == es;
    WindowRefinesHistory(c, es);
    if e.Bad? {
      StepAgrees(c, Run(c, Fresh, es), LedgerRun(c, es), e, EndOf(0, es));
    }
  }

  /**
   * When the circuit opens from closed: exactly on a failure that finds, among all observations made
   * since it last closed and of the last ten seconds, enough requests and enough failures, both
   * counted over the whole log.
   */
  lemma {:induction false} TripsExactlyOnRecentFailures(c: Config, es: seq<Event>, e: Event)
    requires Timely(0, es + [e]) && LedgerRun(c, es).phase.Closed?
    ensures Run(c, Fresh, es).phase.Closed?
    ensures var log := LedgerRun(c, es).log + [Observation(e.at, false)];
            var recent := set i | 0 <= i < |log| && log[i].at >= e.at - ROLLING_WINDOW;
            var failed := set i | 0 <= i < |log| && log[i].at >= e.at - ROLLING_WINDOW && !log[i].success;
            Step(c, Run(c, Fresh, es), e).phase.Open? <==>
              e.Bad? && |recent| >= c.minRequests && 100 * |failed| >= c.failureThreshold * |recent|
  {
    hide Run, Step, LedgerRun, Timely;
    TripsOnTooMany(c, es, e);
  }
}
