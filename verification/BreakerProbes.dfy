/**
 * The breaker together with the requests it let through. A request may report long after the
 * breaker has moved on, so a report can arrive in a different state from the one that admitted it.
 */
module BreakerProbes {
  import opened BreakerSpec
  import opened BreakerRuns

  /**
   * `inFlight` were admitted and have not reported; of these, `probes` were admitted in the current
   * half-open episode. `won` counts the episode's probes that have already reported success.
   */
  datatype Tracked = Tracked(b: State, inFlight: set<nat>, probes: set<nat>, won: nat)

  const Idle := Tracked(Fresh, {}, {}, 0)

  datatype Action =
    | Request(id: nat, at: int)
    | Report(id: nat, success: bool, at: int, later: int)

  function EventOf(a: Action): Event
  {
    match a
    case Request(_, at) => Ask(at)
    case Report(_, success, at, later) => if success then Good(at) else Bad(at, later)
  }

  /** Request identities are not reused while in flight, and only a request in flight reports. */
  ghost predicate Possible(t: Tracked, a: Action)
  {
    match a
    case Request(id, _) => id !in t.inFlight
    case Report(id, _, _, _) => id in t.inFlight
  }

  function Act(c: Config, t: Tracked, a: Action): Tracked
  {
    var b := Step(c, t.b, EventOf(a));
    match a
    case Request(id, at) =>
      if !Admits(c, t.b, at) then t.(b := b)
      else if t.b.phase.Open? then Tracked(b, t.inFlight + {id}, {id}, 0)
      else if t.b.phase.HalfOpen? then Tracked(b, t.inFlight + {id}, t.probes + {id}, t.won)
      else t.(b := b, inFlight := t.inFlight + {id})
    case Report(id, success, _, _) =>
      Tracked(b, t.inFlight - {id}, t.probes - {id}, t.won + if success && id in t.probes then 1 else 0)
  }

  function ActAll(c: Config, t: Tracked, acts: seq<Action>): Tracked
  {
    if acts == [] then t else Act(c, ActAll(c, t, acts[..|acts| - 1]), acts[|acts| - 1])
  }

  ghost predicate AllPossible(c: Config, t: Tracked, acts: seq<Action>)
  {
    acts == [] || (
      && AllPossible(c, t, acts[..|acts| - 1])
      && Possible(ActAll(c, t, acts[..|acts| - 1]), acts[|acts| - 1]))
  }

  /**
   * While half-open every probe is accounted for, as in flight or as a success; no failure of the
   * episode is on the books; and once the last probe is admitted nobody has reported since.
   */
  ghost predicate Accounted(c: Config, t: Tracked)
  {
    && t.probes <= t.inFlight
    && (t.b.phase.HalfOpen? ==>
          && 0 <= t.b.halfOpenTotal <= c.probes
          && t.b.halfOpenFailures == 0
          && |t.probes| + t.won == 1 + t.b.halfOpenTotal
          && (t.b.halfOpenTotal == c.probes ==> t.won <= c.probes))
  }

  lemma {:induction false} ActKeepsAccounts(c: Config, t: Tracked, a: Action)
    requires Sensible(c) && Accounted(c, t) && Possible(t, a)
    ensures Accounted(c, Act(c, t, a))
  {
    if t.b.phase.HalfOpen? && a.Report? && a.id in t.probes {
      assert |t.probes - {a.id}| == |t.probes| - 1;
    }
  }

  /** In every interleaving of requests and late reports the accounts hold. */
  lemma {:induction false} AlwaysAccounted(c: Config, acts: seq<Action>)
    requires Sensible(c) && AllPossible(c, Idle, acts)
    ensures Accounted(c, ActAll(c, Idle, acts))
    decreases |acts|
  {
    if acts != [] {
      var n := |acts| - 1;
      AlwaysAccounted(c, acts[..n]);
      ActKeepsAccounts(c, ActAll(c, Idle, acts[..n]), acts[n]);
    }
  }

  function SuccessesIn(acts: seq<Action>): set<nat>
  {
    set i | 0 <= i < |acts| && acts[i].Report? && acts[i].success
  }

  /** What counts as won was reported as a success. */
  lemma {:induction false} WonAreSuccesses(c: Config, acts: seq<Action>)
    ensures ActAll(c, Idle, acts).won <= |SuccessesIn(acts)|
    decreases |acts|
  {
    hide Step, Admits;
    if acts != [] {
      var n, a := |acts| - 1, acts[|acts| - 1];
      WonAreSuccesses(c, acts[..n]);
      assert SuccessesIn(acts) == SuccessesIn(acts[..n]) + if a.Report? && a.success then {n} else {};
      WonNext(c, ActAll(c, Idle, acts[..n]), a);
    }
  }

  lemma {:induction false} WonNext(c: Config, t: Tracked, a: Action)
    ensures Act(c, t, a).won <= t.won + if a.Report? && a.success then 1 else 0
  {
  }

  /** An episode lets through at most probes + 1 requests: the opener is not counted by the code. */
  lemma {:induction false} EpisodeBudget(c: Config, acts: seq<Action>)
    requires Sensible(c) && AllPossible(c, Idle, acts)
    requires ActAll(c, Idle, acts).b.phase.HalfOpen?
    ensures var t := ActAll(c, Idle, acts); 1 <= |t.probes| + t.won <= c.probes + 1
  {
    AlwaysAccounted(c, acts);
  }

  /**
   * The breaker never wedges. Whenever half-open turns a request away, one of the episode's own
   * probes is still in flight, and whichever request reports next, the breaker leaves half-open.
   */
  lemma {:induction false} NeverWedges(c: Config, acts: seq<Action>, now: int)
    requires Sensible(c) && AllPossible(c, Idle, acts)
    requires ActAll(c, Idle, acts).b.phase.HalfOpen? && !Admits(c, ActAll(c, Idle, acts).b, now)
    ensures var t := ActAll(c, Idle, acts);
            && t.probes != {} && t.probes <= t.inFlight
            && forall a: Action :: a.Report? && Possible(t, a) ==> !Act(c, t, a).b.phase.HalfOpen?
  {
    AlwaysAccounted(c, acts);
    var t := ActAll(c, Idle, acts);
    assert |t.probes| >= 1;
  }

  /** Once every admitted request has reported, one full wait is all that can stand in the way. */
  lemma {:induction false} DrainedBreakerAdmits(c: Config, acts: seq<Action>, now: int)
    requires Sensible(c) && AllPossible(c, Idle, acts)
    requires ActAll(c, Idle, acts).inFlight == {}
    requires now > ActAll(c, Idle, acts).b.openAt + c.openFor
    ensures Admits(c, ActAll(c, Idle, acts).b, now)
  {
    if !Admits(c, ActAll(c, Idle, acts).b, now) {
      NeverWedges(c, acts, now);
    }
  }

  /**
   * A report closes a half-open breaker exactly when it is a success and all probes + 1 requests of
   * the episode have been admitted. At that moment every one of them has either succeeded or is
   * still in flight; none has failed.
   */
  lemma {:induction false} ClosingAccount(c: Config, acts: seq<Action>, r: Action)
    requires Sensible(c) && AllPossible(c, Idle, acts + [r]) && r.Report?
    requires ActAll(c, Idle, acts).b.phase.HalfOpen?
    ensures var t, t' := ActAll(c, Idle, acts), ActAll(c, Idle, acts + [r]);
            && (t'.b.phase.Closed? <==> r.success && |t.probes| + t.won == c.probes + 1)
            && (t'.b.phase.Closed? ==> |t'.probes| + t'.won == c.probes + 1)
            && (t'.b.phase.Open? <==> !r.success)
  {
    assert (acts + [r])[..|acts|] == acts;
    AlwaysAccounted(c, acts);
    var t := ActAll(c, Idle, acts);
    if r.id in t.probes {
      assert |t.probes - {r.id}| == |t.probes| - 1;
    }
  }

  /**
   * "All probes succeeded" is what closing is documented to mean. It does mean that exactly when the
   * report that closes comes from the one probe still in flight: not while another is out, and not
   * from a request admitted before the trip.
   */
  lemma {:induction false} ClosedMeansProvedIff(c: Config, acts: seq<Action>, r: Action)
    requires Sensible(c) && AllPossible(c, Idle, acts + [r]) && r.Report?
    requires ActAll(c, Idle, acts).b.phase.HalfOpen? && ActAll(c, Idle, acts + [r]).b.phase.Closed?
    ensures var t, t' := ActAll(c, Idle, acts), ActAll(c, Idle, acts + [r]);
            t'.won == c.probes + 1 <==> t.probes == {r.id}
  {
    assert (acts + [r])[..|acts|] == acts;
    ClosingAccount(c, acts, r);
    AlwaysAccounted(c, acts);
  }

  /** A request admitted before the trip: its late success closes the circuit with no probe back yet. */
  function LateSuccess(wait: int): seq<Action>
  {
    [Request(0, 0), Request(1, 0), Report(1, false, 0, 0),
     Request(2, wait + 1), Request(3, wait + 1), Report(0, true, wait + 1, wait + 1)]
  }

  /** Checking a run state by state. */
  lemma {:induction false} Follow(c: Config, acts: seq<Action>, states: seq<Tracked>)
    requires |states| == |acts| + 1 && states[0] == Idle
    requires forall i :: 0 <= i < |acts| ==> Possible(states[i], acts[i]) && states[i + 1] == Act(c, states[i], acts[i])
    ensures AllPossible(c, Idle, acts) && ActAll(c, Idle, acts) == states[|acts|]
    decreases |acts|
  {
    if acts != [] {
      Follow(c, acts[..|acts| - 1], states[..|acts|]);
    }
  }

  function LateStates(wait: int): (ts: seq<Tracked>)
    ensures |ts| == 7
  {
    var tripped := EnterOpen(Fresh, 0);
    var probing := EnterHalfOpen(tripped);
    [Idle, Tracked(Fresh, {0}, {}, 0), Tracked(Fresh, {0, 1}, {}, 0),
     Tracked(tripped, {0}, {}, 0),
     Tracked(probing, {0, 2}, {2}, 0),
     Tracked(probing.(halfOpenTotal := 1), {0, 2, 3}, {2, 3}, 0),
     Tracked(EnterClosed(probing.(halfOpenTotal := 1)), {2, 3}, {2, 3}, 0)]
  }

  lemma {:induction false} LateTrip(c: Config, wait: int)
    requires c == Config(1, 50, wait, 1)
    ensures Act(c, Tracked(Fresh, {0, 1}, {}, 0), Report(1, false, 0, 0)) == Tracked(EnterOpen(Fresh, 0), {0}, {}, 0)
  {
    hide Record, Failures;
    FirstFailure();
    assert {0, 1} - {1} == {0};
  }

  lemma {:induction false} FirstFailure()
    ensures Record([], false, 0) == [Observation(0, false)]
    ensures Failures([Observation(0, false)]) == 1
  {
    assert [Observation(0, false)][..0] == [];
  }

  lemma {:induction false} LateStep(c: Config, wait: int, i: nat)
    requires c == Config(1, 50, wait, 1) && i < 6
    ensures Possible(LateStates(wait)[i], LateSuccess(wait)[i])
    ensures LateStates(wait)[i + 1] == Act(c, LateStates(wait)[i], LateSuccess(wait)[i])
  {
    hide Record, Trips, Failures;
    if i == 0 {
    } else if i == 1 {
    } else if i == 2 {
      LateTrip(c, wait);
    } else if i == 3 {
    } else if i == 4 {
    } else {
      assert {0, 2, 3} - {0} == {2, 3} && {2, 3} - {0} == {2, 3};
    }
  }

  /** So the documented meaning fails: the circuit closes with every probe in flight and none won. */
  lemma {:induction false} ClosesUnproved(wait: int)
    requires wait >= 1
    ensures var c := Config(1, 50, wait, 1);
            && Sensible(c) && AllPossible(c, Idle, LateSuccess(wait))
            && ActAll(c, Idle, LateSuccess(wait)[..5]).b.phase.HalfOpen?
            && ActAll(c, Idle, LateSuccess(wait)).b.phase.Closed?
            && ActAll(c, Idle, LateSuccess(wait)).won == 0
            && ActAll(c, Idle, LateSuccess(wait)).probes == {2, 3}
  {
    hide ActAll, AllPossible, Act, Possible;
    var c := Config(1, 50, wait, 1);
    forall i | 0 <= i < 6
      ensures Possible(LateStates(wait)[i], LateSuccess(wait)[i])
      ensures LateStates(wait)[i + 1] == Act(c, LateStates(wait)[i], LateSuccess(wait)[i])
    {
      LateStep(c, wait, i);
    }
    Follow(c, LateSuccess(wait), LateStates(wait));
    Follow(c, LateSuccess(wait)[..5], LateStates(wait)[..6]);
  }

  // -------------------------------------------------- one request at a time

  /** Requests one after the other, each succeeding; every pair holds when it asks and when it reports. */
  function Sequential(ts: seq<(int, int)>): (es: seq<Event>)
    ensures |es| == 2 * |ts|
  {
    if ts == [] then []
    else
      var last := ts[|ts| - 1];
      Sequential(ts[..|ts| - 1]) + [Ask(last.0), Good(last.1)]
  }

  lemma {:induction false} RunTwo(c: Config, s: State, es: seq<Event>, e: Event, f: Event)
    ensures Run(c, s, es + [e, f]) == Step(c, Step(c, Run(c, s, es), e), f)
  {
    assert (es + [e, f])[..|es| + 1] == es + [e] && (es + [e])[..|es|] == es;
  }

  /**
   * Without overlap, an open breaker whose wait is over closes on exactly the (probes + 1)-th
   * consecutive success: half-open after each of the first `probes`, closed after the next.
   */
  lemma {:induction false} SequentialRecovery(c: Config, s: State, ts: seq<(int, int)>)
    requires Sensible(c) && s.phase.Open? && 1 <= |ts| <= c.probes + 1
    requires ts[0].0 > s.openAt + c.openFor
    ensures var s' := Run(c, s, Sequential(ts));
            if |ts| <= c.probes then s'.phase.HalfOpen? && s'.halfOpenTotal == |ts| - 1 && s'.halfOpenFailures == 0
            else s'.phase.Closed? && s'.window == []
    decreases |ts|
  {
    var n := |ts| - 1;
    RunTwo(c, s, Sequential(ts[..n]), Ask(ts[n].0), Good(ts[n].1));
    if n > 0 {
      SequentialRecovery(c, s, ts[..n]);
    }
  }
}
