/** The gateway object: choosing a route, swapping in new routes, and serving one request. */
module Proxy {
  import opened Reloads
  import opened Backends
  import CircuitBreaker
  import BreakerSpec

  class Checker {
    ghost const id: nat
    var stops: nat

    /** A new checker runs at once; stopping cancels it for good. */
    constructor (ghost id: nat)
      ensures this.id == id && stops == 0
    {
      this.id, stops := id, 0;
    }

    method Stop()
      modifies this
      ensures stops == old(stops) + 1
    {
      stops := stops + 1;
    }
  }

  datatype Route = Route(prefix: string, checker: Checker)

  class Gateway {
    var routes: seq<Route>
    /** Every checker ever started, in order. */
    ghost var started: seq<Checker>

    ghost predicate Numbered()
      reads this
    {
      forall i :: 0 <= i < |started| ==> started[i].id == i
    }

    ghost predicate Known(rs: seq<Route>)
      reads this
    {
      forall i :: 0 <= i < |rs| ==> rs[i].checker.id < |started| && started[rs[i].checker.id] == rs[i].checker
    }

    ghost predicate Valid()
      reads this
    {
      Numbered() && Known(routes)
    }

    static ghost function EntriesOf(rs: seq<Route>): (es: seq<Entry>)
      ensures |es| == |rs|
      ensures forall i :: 0 <= i < |es| ==> es[i] == Entry(rs[i].prefix, rs[i].checker.id)
    {
      seq(|rs|, i requires 0 <= i < |rs| => Entry(rs[i].prefix, rs[i].checker.id))
    }

    ghost function Stops(): (s: seq<nat>)
      reads this, started
      ensures |s| == |started| && forall i :: 0 <= i < |s| ==> s[i] == started[i].stops
    {
      seq(|started|, i requires 0 <= i < |started| reads this, started => started[i].stops)
    }

    ghost function Abs(): World
      reads this, started
    {
      World(EntriesOf(routes), Stops())
    }

    /** A route that gets as far as its checker starts it, even if it fails later. */
    method BuildRoute(cfg: RouteConfig) returns (ok: bool, checker: Checker?)
      requires Numbered()
      modifies this`started
      ensures Numbered() && ok == cfg.build.Builds?
      ensures cfg.build.FailsEarly? ==> checker == null && started == old(started)
      ensures !cfg.build.FailsEarly? ==>
                checker != null && fresh(checker) && checker.stops == 0 && started == old(started) + [checker]
    {
      if cfg.build.FailsEarly? {
        return false, null;
      }
      checker := new Checker(|started|);
      started := started + [checker];
      ok := cfg.build.Builds?;
    }

    /** Build the routes in order, starting a checker for each, until one fails. */
    method BuildRoutes(cfgs: seq<RouteConfig>) returns (ok: bool, built: seq<Route>)
      requires Numbered()
      modifies this`started
      ensures Numbered() && |started| == |old(started)| + Started(cfgs)
      ensures started[..|old(started)|] == old(started)
      ensures forall i :: |old(started)| <= i < |started| ==> fresh(started[i]) && started[i].stops == 0
      ensures ok == Succeeds(cfgs)
      ensures ok ==> Known(built) && EntriesOf(built) == Entries(cfgs, |old(started)|)
    {
      hide Started;
      built := [];
      for i := 0 to |cfgs|
        invariant Numbered() && |started| == |old(started)| + i
        invariant started[..|old(started)|] == old(started)
        invariant forall k :: |old(started)| <= k < |started| ==> fresh(started[k]) && started[k].stops == 0
        invariant forall k :: 0 <= k < i ==> cfgs[k].build.Builds?
        invariant |built| == i
        invariant forall k :: 0 <= k < i ==> built[k] == Route(cfgs[k].prefix, started[|old(started)| + k])
      {
        StartedUpTo(cfgs, i);
        var r, checker := BuildRoute(cfgs[i]);
        if !r {
          return false, [];
        }
        built := built + [Route(cfgs[i].prefix, checker)];
      }
      StartedUpTo(cfgs, |cfgs|);
      assert EntriesOf(built) == Entries(cfgs, |old(started)|);
      return true, built;
    }

    static method Prefixes(cfgs: seq<RouteConfig>) returns (ps: set<string>)
      ensures forall p :: p in ps <==> exists i :: 0 <= i < |cfgs| && cfgs[i].prefix == p
    {
      ps := {};
      for i := 0 to |cfgs|
        invariant forall p :: p in ps <==> HasPrefix(cfgs[..i], p)
      {
        forall p ensures HasPrefix(cfgs[..i + 1], p) <==> HasPrefix(cfgs[..i], p) || cfgs[i].prefix == p {
          HasPrefixNext(cfgs, i, p);
        }
        ps := ps + {cfgs[i].prefix};
      }
      assert cfgs[..|cfgs|] == cfgs;
    }

    method StopChecker(c: Checker)
      requires Numbered() && c.id < |started| && started[c.id] == c
      modifies c
      ensures Stops() == old(Stops())[c.id := old(Stops())[c.id] + 1]
    {
      ghost var before := Stops();
      c.Stop();
      forall k | 0 <= k < |started| ensures Stops()[k] == before[c.id := before[c.id] + 1][k] {
        assert started[k].id == k;
      }
    }

    /** Stop the checkers of the old routes whose prefix the new configuration no longer has. */
    method StopOld(was: seq<Route>, cfgs: seq<RouteConfig>)
      requires Numbered() && Known(was)
      modifies set i | 0 <= i < |was| :: was[i].checker
      ensures Stops() == StopRemoved(EntriesOf(was), cfgs, old(Stops()))
    {
      hide StopRemoved, HasPrefix, EntriesOf, Stops;
      var newPrefixes := Prefixes(cfgs);
      forall p ensures p in newPrefixes <==> HasPrefix(cfgs, p) {
        HasPrefixMeans(cfgs, p);
      }
      ghost var es, before := EntriesOf(was), Stops();
      StopRemovedStart(cfgs, before);
      assert es[..0] == [];
      for i := 0 to |was|
        invariant Stops() == StopRemoved(es[..i], cfgs, before)
      {
        StopRemovedNext(es, cfgs, before, i);
        if was[i].prefix !in newPrefixes {
          StopChecker(was[i].checker);
        }
      }
      assert es[..|was|] == es;
    }

    method Reload(cfgs: seq<RouteConfig>) returns (ok: bool)
      requires Valid()
      modifies this, set i | 0 <= i < |routes| :: routes[i].checker
      ensures Valid() && ok == Succeeds(cfgs)
      ensures Abs() == Reloads.Reload(old(Abs()), cfgs)
    {
      hide StopRemoved, Started, HasPrefix, Stops, EntriesOf;
      ghost var before := Stops();
      var built;
      ok, built := BuildRoutes(cfgs);
      forall k | 0 <= k < |before| ensures started[k] == old(started)[k] {
        assert started[k] == started[..|before|][k];
      }
      assert Stops() == NewStops(before, Started(cfgs));
      if !ok {
        assert EntriesOf(routes) == old(EntriesOf(routes));
        return;
      }
      var was := routes;
      routes := built;
      assert Stops() == NewStops(before, Started(cfgs));
      StopOld(was, cfgs);
    }

    /** The route with the longest matching prefix; of equally long ones the first. */
    method Match(path: string) returns (matched: int)
      ensures -1 <= matched < |routes|
      ensures matched == -1 <==> forall i :: 0 <= i < |routes| ==> !(routes[i].prefix <= path)
      ensures matched >= 0 ==>
                && routes[matched].prefix <= path
                && forall i :: 0 <= i < |routes| && routes[i].prefix <= path ==>
                     && |routes[i].prefix| <= |routes[matched].prefix|
                     && (i < matched ==> |routes[i].prefix| < |routes[matched].prefix|)
    {
      matched := -1;
      for i := 0 to |routes|
        invariant -1 <= matched < i
        invariant matched == -1 <==> forall k :: 0 <= k < i ==> !(routes[k].prefix <= path)
        invariant matched >= 0 ==>
                    && routes[matched].prefix <= path
                    && forall k :: 0 <= k < i && routes[k].prefix <= path ==>
                         && |routes[k].prefix| <= |routes[matched].prefix|
                         && (k < matched ==> |routes[k].prefix| < |routes[matched].prefix|)
      {
        if routes[i].prefix <= path {
          if matched == -1 || |routes[i].prefix| > |routes[matched].prefix| {
            matched := i;
          }
        }
      }
    }
  }

  lemma {:induction false} HasPrefixMeans(cfgs: seq<RouteConfig>, prefix: string)
    ensures HasPrefix(cfgs, prefix) <==> exists i :: 0 <= i < |cfgs| && cfgs[i].prefix == prefix
  {
  }

  lemma {:induction false} HasPrefixNext(cfgs: seq<RouteConfig>, i: nat, prefix: string)
    requires i < |cfgs|
    ensures HasPrefix(cfgs[..i + 1], prefix) <==> HasPrefix(cfgs[..i], prefix) || cfgs[i].prefix == prefix
  {
    if HasPrefix(cfgs[..i], prefix) {
      var k :| 0 <= k < i && cfgs[..i][k].prefix == prefix;
      assert cfgs[..i + 1][k].prefix == prefix;
    }
    if cfgs[i].prefix == prefix {
      assert cfgs[..i + 1][i].prefix == prefix;
    }
  }

  lemma {:induction false} StartedUpTo(cfgs: seq<RouteConfig>, i: nat)
    requires i <= |cfgs| && forall k :: 0 <= k < i ==> cfgs[k].build.Builds?
    ensures Started(cfgs) == if i == |cfgs| then i else match cfgs[i].build
                             case FailsEarly => i
                             case FailsLate => i + 1
                             case Builds => i + 1 + Started(cfgs[i + 1..])
    decreases i
  {
    if i > 0 {
      StartedUpTo(cfgs[1..], i - 1);
      if i < |cfgs| {
        assert cfgs[1..][i..] == cfgs[i + 1..];
      }
    }
  }

  lemma {:induction false} StopRemovedStart(cfgs: seq<RouteConfig>, stops: seq<nat>)
    ensures StopRemoved([], cfgs, stops) == stops
  {
  }

  lemma {:induction false} StopRemovedNext(was: seq<Entry>, cfgs: seq<RouteConfig>, stops: seq<nat>, i: nat)
    requires i < |was|
    ensures var s := StopRemoved(was[..i], cfgs, stops);
            StopRemoved(was[..i + 1], cfgs, stops)
            == if !HasPrefix(cfgs, was[i].prefix) && was[i].checker < |s|
               then s[was[i].checker := s[was[i].checker] + 1] else s
  {
    assert was[..i + 1][..i] == was[..i];
  }

  // --------------------------------------------------------- serving one request

  /** What comes back from the upstream: a response, or an error on the way. */
  datatype Upstream = Response(code: int) | TransportError

  /**
   * One request on its own. `limited` is the limiter's answer, `backend` the balancer's (null when
   * nobody is alive), `breaker` the one of the backend's URL (null when breakers are off).
   */
  method ServeProxy(
    limited: bool, backend: Backend?, breaker: CircuitBreaker.Breaker?, parses: bool, upstream: Upstream,
    asked: int, answered: int, tripped: int)
    returns (status: int)
    modifies backend, breaker
    ensures status == if limited then 429
                      else if backend == null then 503
                      else if breaker != null && !BreakerSpec.Admits(breaker.cfg, old(breaker.Abs()), asked) then 503
                      else if !parses || upstream.TransportError? then 502
                      else upstream.code
    ensures backend != null ==> backend.inflight == old(backend.inflight) && backend.weight == old(backend.weight)
    ensures var healthy := upstream.Response? && upstream.code < 500;
            var reached := !limited && backend != null && parses
                           && (breaker != null ==> BreakerSpec.Admits(breaker.cfg, old(breaker.Abs()), asked));
            && (backend != null ==> backend.alive == if reached then healthy else old(backend.alive))
            && (breaker != null ==>
                  var s := if limited || backend == null then old(breaker.Abs())
                           else BreakerSpec.Allow(breaker.cfg, old(breaker.Abs()), asked);
                  breaker.Abs() == if !reached then s
                                   else if healthy then BreakerSpec.Success(breaker.cfg, s, answered)
                                   else BreakerSpec.Failure(breaker.cfg, s, answered, tripped))
  {
    if limited {
      return 429;
    }
    if backend == null {
      return 503;
    }
    if breaker != null {
      var ok := breaker.Allow(asked);
      if !ok {
        return 503;
      }
    }
    backend.Inc();
    if !parses {
      status := 502;
    } else {
      match upstream
      case Response(code) =>
        if code >= 500 {
          if breaker != null {
            breaker.RecordFailure(answered, tripped);
          }
          backend.SetAlive(false);
        } else {
          if breaker != null {
            breaker.RecordSuccess(answered);
          }
          backend.SetAlive(true);
        }
        status := code;
      case TransportError =>
        if breaker != null {
          breaker.RecordFailure(answered, tripped);
        }
        backend.SetAlive(false);
        status := 502;
    }
    backend.Dec();
  }
}
