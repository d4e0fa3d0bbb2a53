/** What the breaker guarantees over whole runs: how much it lets through while tripped. */
module BreakerRuns {
  import opened BreakerSpec

  /** Settings a breaker is built with once the defaults are in: at least one probe, a positive wait. */
  ghost predicate Sensible(c: Config)
  {
    c.probes >= 1 && c.openFor >= 1
  }

  function Admitted(c: Config, s: State, e: Event): nat
  {
    if e.Ask? && Admits(c, s, e.at) then 1 else 0
  }

  /** Whether this step starts a half-open episode. */
  function Opens(c: Config, s: State, e: Event): nat
  {
    if s.phase.Open? && Step(c, s, e).phase.HalfOpen? then 1 else 0
  }

  function Admissions(c: Config, s: State, es: seq<Event>): nat
  {
    if es == [] then 0
    else Admissions(c, s, es[..|es| - 1]) + Admitted(c, Run(c, s, es[..|es| - 1]), es[|es| - 1])
  }

  function Episodes(c: Config, s: State, es: seq<Event>): nat
  {
    if es == [] then 0
    else Episodes(c, s, es[..|es| - 1]) + Opens(c, Run(c, s, es[..|es| - 1]), es[|es| - 1])
  }

  predicate IsAdmitted(c: Config, s: State, es: seq<Event>, i: nat)
    requires i < |es|
  {
    es[i].Ask? && Admits(c, Run(c, s, es[..i]), es[i].at)
  }

  /** Which requests of a run are let through. */
  function AdmittedAt(c: Config, s: State, es: seq<Event>): set<nat>
  {
    set i | 0 <= i < |es| && IsAdmitted(c, s, es, i)
  }

  predicate IsOpening(c: Config, s: State, es: seq<Event>, i: nat)
    requires i < |es|
  {
    Run(c, s, es[..i]).phase.Open? && Run(c, s, es[..i + 1]).phase.HalfOpen?
  }

  /** Where in a run an open breaker turns half-open. */
  function OpenedAt(c: Config, s: State, es: seq<Event>): set<nat>
  {
    set i | 0 <= i < |es| && IsOpening(c, s, es, i)
  }

  lemma {:induction false} AdmissionsAreCounted(c: Config, s: State, es: seq<Event>)
    ensures Admissions(c, s, es) == |AdmittedAt(c, s, es)|
    decreases |es|
  {
    hide Run, Admits, IsAdmitted;
    if es == [] {
      assert AdmittedAt(c, s, es) == {};
    } else {
      var n := |es| - 1;
      AdmissionsAreCounted(c, s, es[..n]);
      forall i | 0 <= i < n ensures IsAdmitted(c, s, es[..n], i) == IsAdmitted(c, s, es, i) {
        PrefixAgrees(c, s, es, i);
      }
      AdmittedHere(c, s, es);
      assert AdmittedAt(c, s, es) == AdmittedAt(c, s, es[..n]) + if IsAdmitted(c, s, es, n) then {n} else {};
    }
  }

  lemma {:induction false} PrefixAgrees(c: Config, s: State, es: seq<Event>, i: nat)
    requires i < |es| - 1
    ensures IsAdmitted(c, s, es[..|es| - 1], i) == IsAdmitted(c, s, es, i)
    ensures IsOpening(c, s, es[..|es| - 1], i) == IsOpening(c, s, es, i)
  {
    assert es[..|es| - 1][..i] == es[..i] && es[..|es| - 1][..i + 1] == es[..i + 1];
  }

  lemma {:induction false} AdmittedHere(c: Config, s: State, es: seq<Event>)
    requires es != []
    ensures var n := |es| - 1;
            Admissions(c, s, es) == Admissions(c, s, es[..n]) + if IsAdmitted(c, s, es, n) then 1 else 0
  {
  }

  lemma {:induction false} EpisodesAreCounted(c: Config, s: State, es: seq<Event>)
    ensures Episodes(c, s, es) == |OpenedAt(c, s, es)|
    decreases |es|
  {
    hide Run, Step, IsOpening;
    if es == [] {
      assert OpenedAt(c, s, es) == {};
    } else {
      var n := |es| - 1;
      EpisodesAreCounted(c, s, es[..n]);
      forall i | 0 <= i < n ensures IsOpening(c, s, es[..n], i) == IsOpening(c, s, es, i) {
        PrefixAgrees(c, s, es, i);
      }
      OpeningHere(c, s, es);
      assert OpenedAt(c, s, es) == OpenedAt(c, s, es[..n]) + if IsOpening(c, s, es, n) then {n} else {};
    }
  }

  lemma {:induction false} OpeningHere(c: Config, s: State, es: seq<Event>)
    requires es != []
    ensures var n := |es| - 1;
            Episodes(c, s, es) == Episodes(c, s, es[..n]) + if IsOpening(c, s, es, n) then 1 else 0
  {
    RunPrefix(c, s, es);
  }

  lemma {:induction false} RunPrefix(c: Config, s: State, es: seq<Event>)
    requires es != []
    ensures es[..|es|] == es && Run(c, s, es) == Step(c, Run(c, s, es[..|es| - 1]), es[|es| - 1])
  {
  }

  ghost predicate NeverCloses(c: Config, s: State, es: seq<Event>)
  {
    && !Run(c, s, es).phase.Closed?
    && (es == [] || NeverCloses(c, s, es[..|es| - 1]))
  }

  /**
   * The books of a tripped breaker after e episodes and a admissions: every episode cost at least
   * one full wait, and let through the request that opened it plus at most `probes` more.
   */
  ghost predicate Books(c: Config, t0: int, s: State, now: int, e: nat, a: nat)
  {
    && !s.phase.Closed?
    && s.openAt <= now
    && (s.phase.Open? ==> s.openAt >= t0 + e * c.openFor && a <= e * (c.probes + 1))
    && (s.phase.HalfOpen? ==>
          && e >= 1 && now > t0 + e * c.openFor
          && 0 <= s.halfOpenTotal <= c.probes
          && a <= (e - 1) * (c.probes + 1) + 1 + s.halfOpenTotal)
  }

  lemma {:induction false} OneMoreTime(e: int, k: int)
    ensures (e + 1) * k == e * k + k
  {
  }

  lemma {:induction false} BooksStep(c: Config, t0: int, s: State, now: int, e: nat, a: nat, ev: Event)
    requires Sensible(c) && Books(c, t0, s, now, e, a)
    requires now <= Start(ev) <= End(ev) && !Step(c, s, ev).phase.Closed?
    ensures Books(c, t0, Step(c, s, ev), End(ev), e + Opens(c, s, ev), a + Admitted(c, s, ev))
  {
    OneMoreTime(e, c.openFor);
    OneMoreTime(e - 1, c.probes + 1);
  }

  lemma {:induction false} TrippedBooks(c: Config, s: State, es: seq<Event>)
    requires Sensible(c) && s.phase.Open?
    requires Timely(s.openAt, es) && NeverCloses(c, s, es)
    ensures Books(c, s.openAt, Run(c, s, es), EndOf(s.openAt, es), Episodes(c, s, es), Admissions(c, s, es))
    decreases |es|
  {
    if es != [] {
      var n := |es| - 1;
      TrippedBooks(c, s, es[..n]);
      BooksStep(c, s.openAt, Run(c, s, es[..n]), EndOf(s.openAt, es[..n]),
                Episodes(c, s, es[..n]), Admissions(c, s, es[..n]), es[n]);
    }
  }

  /** The e-th half-open episode starts strictly later than e full waits after the trip. */
  lemma {:induction false} EpisodeStartsLate(c: Config, s: State, es: seq<Event>, e: Event)
    requires Sensible(c) && s.phase.Open?
    requires Timely(s.openAt, es + [e]) && NeverCloses(c, s, es + [e])
    requires Run(c, s, es).phase.Open? && Run(c, s, es + [e]).phase.HalfOpen?
    ensures Start(e) > s.openAt + (|OpenedAt(c, s, es)| + 1) * c.openFor
  {
    EpisodesAreCounted(c, s, es);
    assert (es + [e])[..|es|] == es;
    TrippedBooks(c, s, es);
    OneMoreTime(Episodes(c, s, es), c.openFor);
  }

  lemma {:induction false} WholeWaits(e: nat, wait: int, elapsed: int)
    requires wait >= 1 && elapsed >= e * wait
    ensures e <= elapsed / wait
  {
    OneMoreTime(elapsed / wait, wait);
    if e > elapsed / wait {
      MulMonotone(elapsed / wait + 1, e, wait);
    }
  }

  /**
   * From a trip until any later time without a return to closed, at most probes + 1 requests are
   * let through for every full wait that has gone by; before the first wait is over, none is.
   */
  lemma {:induction false} TrippedThroughput(c: Config, s: State, es: seq<Event>, t: int)
    requires Sensible(c) && s.phase.Open?
    requires Timely(s.openAt, es) && NeverCloses(c, s, es) && EndOf(s.openAt, es) <= t
    ensures |AdmittedAt(c, s, es)| <= (t - s.openAt) / c.openFor * (c.probes + 1)
    ensures t <= s.openAt + c.openFor ==> AdmittedAt(c, s, es) == {}
  {
    hide Run, Step, Admits;
    AdmissionsAreCounted(c, s, es);
    TrippedBooks(c, s, es);
    var e, a := Episodes(c, s, es), Admissions(c, s, es);
    var s' := Run(c, s, es);
    assert a <= e * (c.probes + 1) by {
      OneMoreTime(e - 1, c.probes + 1);
    }
    WholeWaits(e, c.openFor, t - s.openAt);
    MulMonotone(e, (t - s.openAt) / c.openFor, c.probes + 1);
    if t <= s.openAt + c.openFor && e >= 1 {
      EpisodeNeedsAWait(c, s, es);
    }
  }

  lemma {:induction false} EpisodeNeedsAWait(c: Config, s: State, es: seq<Event>)
    requires Sensible(c) && s.phase.Open?
    requires Timely(s.openAt, es) && NeverCloses(c, s, es) && Episodes(c, s, es) >= 1
    ensures EndOf(s.openAt, es) > s.openAt + c.openFor
    decreases |es|
  {
    var n := |es| - 1;
    if Episodes(c, s, es[..n]) >= 1 {
      EpisodeNeedsAWait(c, s, es[..n]);
    } else {
      TrippedBooks(c, s, es[..n]);
    }
  }
}
