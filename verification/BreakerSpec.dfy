/** The three-state circuit breaker as functions on its state: the specification of class Breaker. */
module BreakerSpec {
  import opened TimeLog

  /** Settings after defaults; durations in nanoseconds. */
  datatype Config = Config(minRequests: int, failureThreshold: int, openFor: int, probes: int)

  const SECOND := 1_000_000_000
  const ROLLING_WINDOW := 10 * SECOND

  /** A setting left at zero gets its default. */
  function WithDefaults(minRequests: int, failureThreshold: int, openSeconds: int, halfOpenRequests: int): Config
  {
    Config(if minRequests == 0 then 20 else minRequests,
           if failureThreshold == 0 then 50 else failureThreshold,
           (if openSeconds == 0 then 30 else openSeconds) * SECOND,
           if halfOpenRequests == 0 then 5 else halfOpenRequests)
  }

  datatype Phase = Closed | Open | HalfOpen

  datatype Observation = Observation(at: int, success: bool)

  datatype State = State(
    phase: Phase,
    openAt: int,
    window: seq<Observation>,
    halfOpenTotal: int,
    halfOpenFailures: int)

  const Fresh := State(Closed, 0, [], 0, 0)

  function At(o: Observation): int { o.at }

  function EnterOpen(s: State, now: int): State
  {
    s.(phase := Open, openAt := now, window := [])
  }

  function EnterHalfOpen(s: State): State
  {
    s.(phase := HalfOpen, halfOpenTotal := 0, halfOpenFailures := 0)
  }

  function EnterClosed(s: State): State
  {
    s.(phase := Closed, window := [])
  }

  predicate Admits(c: Config, s: State, now: int)
  {
    match s.phase
    case Closed => true
    case Open => now - s.openAt > c.openFor
    case HalfOpen => s.halfOpenTotal < c.probes
  }

  function Allow(c: Config, s: State, now: int): State
  {
    match s.phase
    case Closed => s
    case Open => if now - s.openAt > c.openFor then EnterHalfOpen(s) else s
    case HalfOpen => if s.halfOpenTotal < c.probes then s.(halfOpenTotal := s.halfOpenTotal + 1) else s
  }

  /** Append an observation and evict the stale prefix. */
  function Record(window: seq<Observation>, success: bool, now: int): (w: seq<Observation>)
    ensures |w| >= 1 && w[|w| - 1] == Observation(now, success)
  {
    var longer := window + [Observation(now, success)];
    assert At(longer[|window|]) == now;
    longer[Stale(longer, At, now - ROLLING_WINDOW)..]
  }

  /** Evicted are the leading observations older than the rolling window, up to the first that is not, and no others. */
  lemma {:induction false} RecordEvictsStale(window: seq<Observation>, success: bool, now: int)
    ensures var longer, w := window + [Observation(now, success)], Record(window, success, now);
            var gone := |longer| - |w|;
            && gone >= 0 && w == longer[gone..] && w[0].at >= now - ROLLING_WINDOW
            && forall i :: 0 <= i < gone ==> longer[i].at < now - ROLLING_WINDOW
  {
    var longer := window + [Observation(now, success)];
    var gone := Stale(longer, At, now - ROLLING_WINDOW);
    assert At(longer[|window|]) == now && At(longer[gone]) >= now - ROLLING_WINDOW;
    forall i | 0 <= i < gone ensures longer[i].at < now - ROLLING_WINDOW {
      assert At(longer[i]) < now - ROLLING_WINDOW;
    }
  }

  function Failures(window: seq<Observation>): (n: nat)
    ensures n <= |window|
  {
    if window == [] then 0
    else Failures(window[..|window| - 1]) + if window[|window| - 1].success then 0 else 1
  }

  lemma {:induction false} FailuresAppend(window: seq<Observation>, o: Observation)
    ensures Failures(window + [o]) == Failures(window) + if o.success then 0 else 1
  {
    assert (window + [o])[..|window|] == window;
  }

  /** The failures are the positions that hold no success, and no others. */
  lemma {:induction false} FailuresAreCounted(window: seq<Observation>)
    ensures Failures(window) == |set i | 0 <= i < |window| && !window[i].success|
    decreases |window|
  {
    if window != [] {
      var n := |window| - 1;
      FailuresAreCounted(window[..n]);
      var before := set i | 0 <= i < n && !window[..n][i].success;
      assert (set i | 0 <= i < |window| && !window[i].success)
          == if window[n].success then before else before + {n};
    }
  }

  /** Enough requests, and a failure percentage (rounded down) at or above the threshold. */
  predicate Trips(c: Config, window: seq<Observation>)
    requires |window| >= 1
  {
    |window| >= c.minRequests && Failures(window) * 100 / |window| >= c.failureThreshold
  }

  function Success(c: Config, s: State, now: int): State
  {
    match s.phase
    case Closed => s.(window := Record(s.window, true, now))
    case Open => s
    case HalfOpen => if s.halfOpenTotal - s.halfOpenFailures >= c.probes then EnterClosed(s) else s
  }

  /** The clock is read once for the observation and once more if the circuit opens. */
  function Failure(c: Config, s: State, now: int, later: int): State
  {
    match s.phase
    case Closed =>
      var s' := s.(window := Record(s.window, false, now));
      if Trips(c, s'.window) then EnterOpen(s', later) else s'
    case Open => s
    case HalfOpen => EnterOpen(s.(halfOpenFailures := s.halfOpenFailures + 1), later)
  }

  // --------------------------------------------------------------------- runs

  /** One critical section of the breaker, with the clock readings taken inside it. */
  datatype Event = Ask(at: int) | Good(at: int) | Bad(at: int, later: int)

  function Start(e: Event): int { e.at }

  function End(e: Event): int { if e.Bad? then e.later else e.at }

  function Step(c: Config, s: State, e: Event): State
  {
    match e
    case Ask(at) => Allow(c, s, at)
    case Good(at) => Success(c, s, at)
    case Bad(at, later) => Failure(c, s, at, later)
  }

  function Run(c: Config, s: State, es: seq<Event>): State
  {
    if es == [] then s else Step(c, Run(c, s, es[..|es| - 1]), es[|es| - 1])
  }

  function EndOf(t0: int, es: seq<Event>): int
  {
    if es == [] then t0 else End(es[|es| - 1])
  }

  /** The clock never runs backwards, from t0 through every reading of the run. */
  ghost predicate Timely(t0: int, es: seq<Event>)
  {
    es == [] || (
      var e := es[|es| - 1];
      && Timely(t0, es[..|es| - 1])
      && EndOf(t0, es[..|es| - 1]) <= Start(e) <= End(e))
  }

  /** Integer division hides nothing: the percentage test is the exact comparison of the ratio. */
  lemma {:induction false} PercentageIsExact(failures: int, total: int, threshold: int)
    requires total > 0
    ensures failures * 100 / total >= threshold <==> 100 * failures >= threshold * total
  {
    var q, r := failures * 100 / total, failures * 100 % total;
    assert failures * 100 == q * total + r && 0 <= r < total;
    if q >= threshold {
      MulMonotone(threshold, q, total);
    } else {
      MulMonotone(q + 1, threshold, total);
      assert (q + 1) * total == q * total + total;
    }
  }

  lemma {:induction false} MulMonotone(a: int, b: int, k: int)
    requires a <= b && k > 0
    ensures a * k <= b * k
  {
  }
}
