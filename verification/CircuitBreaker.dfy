/** The circuit breaker as the program keeps it: one object per backend, updated under its lock. */
module CircuitBreaker {
  import opened TimeLog
  import opened BreakerSpec

  class Breaker {
    const cfg: Config
    var phase: Phase
    var openAt: int
    var window: seq<Observation>
    var halfOpenTotal: int
    var halfOpenFailures: int

    /** The state the specification talks about. */
    ghost function Abs(): State
      reads this
    {
      State(phase, openAt, window, halfOpenTotal, halfOpenFailures)
    }

    constructor (minRequests: int, failureThreshold: int, openSeconds: int, halfOpenRequests: int)
      ensures cfg.minRequests == if minRequests == 0 then 20 else minRequests
      ensures cfg.failureThreshold == if failureThreshold == 0 then 50 else failureThreshold
      ensures cfg.openFor == if openSeconds == 0 then 30_000_000_000 else openSeconds * 1_000_000_000
      ensures cfg.probes == if halfOpenRequests == 0 then 5 else halfOpenRequests
      ensures Abs() == Fresh && phase == Closed && window == []
    {
      cfg := WithDefaults(minRequests, failureThreshold, openSeconds, halfOpenRequests);
      phase, openAt, window, halfOpenTotal, halfOpenFailures := Closed, 0, [], 0, 0;
    }

    method Allow(now: int) returns (ok: bool)
      modifies this
      ensures ok == Admits(cfg, old(Abs()), now)
      ensures Abs() == BreakerSpec.Allow(cfg, old(Abs()), now)
    {
      match phase
      case Closed =>
        return true;
      case Open =>
        if now - openAt > cfg.openFor {
          TransitionTo(HalfOpen, now);
          return true;
        }
        return false;
      case HalfOpen =>
        if halfOpenTotal < cfg.probes {
          halfOpenTotal := halfOpenTotal + 1;
          return true;
        }
        return false;
    }

    method RecordSuccess(now: int)
      modifies this
      ensures Abs() == Success(cfg, old(Abs()), now)
    {
      match phase
      case Closed =>
        Record(true, now);
      case HalfOpen =>
        if halfOpenTotal - halfOpenFailures >= cfg.probes {
          TransitionTo(Closed, now);
        }
      case Open =>
    }

    method RecordFailure(now: int, later: int)
      modifies this
      ensures Abs() == Failure(cfg, old(Abs()), now, later)
    {
      match phase
      case Closed =>
        Record(false, now);
        MaybeTrip(later);
      case HalfOpen =>
        halfOpenFailures := halfOpenFailures + 1;
        TransitionTo(Open, later);
      case Open =>
    }

    method Record(success: bool, now: int)
      modifies this`window
      ensures window == BreakerSpec.Record(old(window), success, now)
    {
      window := window + [Observation(now, success)];
      var cutoff := now - ROLLING_WINDOW;
      var i := 0;
      while i < |window| && window[i].at < cutoff
        invariant 0 <= i <= |window|
        invariant forall k :: 0 <= k < i ==> window[k].at < cutoff
      {
        i := i + 1;
      }
      StaleIs(window, At, cutoff, i);
      window := window[i..];
    }

    method MaybeTrip(later: int)
      requires |window| >= 1
      modifies this
      ensures Abs() == if Trips(cfg, old(window)) then EnterOpen(old(Abs()), later) else old(Abs())
      ensures phase == if |old(window)| >= cfg.minRequests
                          && 100 * |set i | 0 <= i < |old(window)| && !old(window)[i].success|
                             >= cfg.failureThreshold * |old(window)| then Open else old(phase)
    {
      FailuresAreCounted(window);
      PercentageIsExact(Failures(window), |window|, cfg.failureThreshold);
      var total := |window|;
      if total < cfg.minRequests {
        return;
      }
      var failures := 0;
      for i := 0 to |window|
        invariant failures == Failures(window[..i])
      {
        assert window[..i + 1][..i] == window[..i];
        if !window[i].success {
          failures := failures + 1;
        }
      }
      assert window[..|window|] == window;
      var pct := failures * 100 / total;
      if pct >= cfg.failureThreshold {
        TransitionTo(Open, later);
      }
    }

    method TransitionTo(s: Phase, now: int)
      modifies this
      ensures Abs() == match s
                       case Open => EnterOpen(old(Abs()), now)
                       case HalfOpen => EnterHalfOpen(old(Abs()))
                       case Closed => EnterClosed(old(Abs()))
    {
      phase := s;
      if s == Open {
        openAt := now;
        window := [];
      }
      if s == HalfOpen {
        halfOpenTotal := 0;
        halfOpenFailures := 0;
      }
      if s == Closed {
        window := [];
      }
    }
  }
}
