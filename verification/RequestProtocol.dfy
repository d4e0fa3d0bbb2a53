/**
 * One route serving many requests at once. Each request goes through limiter, balancer, breaker,
 * in-flight counter and proxy in that order; every atomic operation and every critical section is a
 * step of its own, and the steps of different requests interleave freely. The balancer may return
 * any backend or none, which covers every algorithm and alive flags that go stale while it looks; the
 * limiter's answer, the upstream's answer and the health checker's flips come from outside.
 */
module RequestProtocol {
  import opened BreakerSpec
  import opened BreakerRuns
  import opened BreakerProbes

  datatype Upstream = Upstream(url: string, alive: bool, inflight: int)

  /** Where a request is in serveProxy, and with which backend. */
  datatype Stage =
    | Limiting
    | Picking
    | Asking(b: nat)      // has a backend, about to ask its breaker
    | Entering(b: nat)    // let through, about to be counted
    | Parsing(b: nat)     // counted, about to parse the backend's URL
    | Proxying(b: nat)    // with the upstream
    | Marking(b: nat, healthy: bool)  // outcome recorded, about to set the alive flag
    | Leaving(b: nat)     // about to be uncounted
    | Gone

  /** `settings` is shared by the route's breakers; a URL without a breaker is always let through. */
  datatype Route = Route(
    settings: Config,
    unparsable: set<string>,
    ups: seq<Upstream>,
    breakers: map<string, Tracked>,
    requests: map<nat, Stage>,
    admitted: map<nat, string>,
    recorded: multiset<nat>)

  datatype Move =
    | Arrive(r: nat)
    | Limit(r: nat, ok: bool)
    | Pick(r: nat, b: nat)
    | PickNone(r: nat)
    | AskBreaker(r: nat, at: int)
    | Inc(r: nat)
    | Parse(r: nat)
    | Answer(r: nat, ok: bool, at: int, later: int)
    | Mark(r: nat)
    | Dec(r: nat)
    | Flip(b: nat, alive: bool)

  ghost predicate At(g: Route, r: nat)
  {
    r in g.requests && (HasBackend(g.requests[r]) ==> g.requests[r].b < |g.ups|)
  }

  predicate HasBackend(s: Stage)
  {
    !(s.Limiting? || s.Picking? || s.Gone?)
  }

  ghost predicate Enabled(g: Route, m: Move)
  {
    match m
    case Arrive(r) => r !in g.requests
    case Limit(r, _) => At(g, r) && g.requests[r].Limiting?
    case Pick(r, b) => At(g, r) && g.requests[r].Picking? && b < |g.ups|
    case PickNone(r) => At(g, r) && g.requests[r].Picking?
    case AskBreaker(r, _) => At(g, r) && g.requests[r].Asking?
    case Inc(r) => At(g, r) && g.requests[r].Entering?
    case Parse(r) => At(g, r) && g.requests[r].Parsing?
    case Answer(r, _, _, _) => At(g, r) && g.requests[r].Proxying?
    case Mark(r) => At(g, r) && g.requests[r].Marking?
    case Dec(r) => At(g, r) && g.requests[r].Leaving?
    case Flip(b, _) => b < |g.ups|
  }

  function Moved(g: Route, r: nat, s: Stage): Route
  {
    g.(requests := g.requests[r := s])
  }

  function Step(g: Route, m: Move): Route
    requires Enabled(g, m)
  {
    match m
    case Arrive(r) => Moved(g, r, Limiting)
    case Limit(r, ok) => Moved(g, r, if ok then Picking else Gone)
    case Pick(r, b) => Moved(g, r, Asking(b))
    case PickNone(r) => Moved(g, r, Gone)
    case AskBreaker(r, at) =>
      var b := g.requests[r].b;
      var url := g.ups[b].url;
      if url !in g.breakers then Moved(g, r, Entering(b)).(admitted := g.admitted[r := url])
      else
        var g' := g.(breakers := g.breakers[url := Act(g.settings, g.breakers[url], Request(r, at))]);
        if Admits(g.settings, g.breakers[url].b, at)
        then Moved(g', r, Entering(b)).(admitted := g.admitted[r := url])
        else Moved(g', r, Gone)
    case Inc(r) =>
      var b := g.requests[r].b;
      Moved(g, r, Parsing(b)).(ups := g.ups[b := g.ups[b].(inflight := g.ups[b].inflight + 1)])
    case Parse(r) =>
      var b := g.requests[r].b;
      Moved(g, r, if g.ups[b].url in g.unparsable then Leaving(b) else Proxying(b))
    case Answer(r, ok, at, later) =>
      var b := g.requests[r].b;
      var url := g.ups[b].url;
      var g' := Moved(g, r, Marking(b, ok)).(recorded := g.recorded[r := g.recorded[r] + 1]);
      if url !in g.breakers then g'
      else g'.(breakers := g.breakers[url := Act(g.settings, g.breakers[url], Report(r, ok, at, later))])
    case Mark(r) =>
      var b := g.requests[r].b;
      Moved(g, r, Leaving(b)).(ups := g.ups[b := g.ups[b].(alive := g.requests[r].healthy)])
    case Dec(r) =>
      var b := g.requests[r].b;
      Moved(g, r, Gone).(ups := g.ups[b := g.ups[b].(inflight := g.ups[b].inflight - 1)])
    case Flip(b, alive) =>
      g.(ups := g.ups[b := g.ups[b].(alive := alive)])
  }

  /** A route as it is built: nobody counted, every breaker fresh, no requests yet. */
  ghost predicate Initial(g: Route)
  {
    && Sensible(g.settings)
    && (forall b :: 0 <= b < |g.ups| ==> g.ups[b].inflight == 0)
    && (forall u :: u in g.breakers ==> g.breakers[u] == Idle)
    && g.requests == map[] && g.admitted == map[] && g.recorded == multiset{}
  }

  ghost predicate IsRun(trace: seq<Route>, moves: seq<Move>)
  {
    && |trace| == |moves| + 1 && Initial(trace[0])
    && forall i :: 0 <= i < |moves| ==> Enabled(trace[i], moves[i]) && trace[i + 1] == Step(trace[i], moves[i])
  }

  ghost predicate SameUrls(g: Route, g': Route)
  {
    |g'.ups| == |g.ups| && forall b :: 0 <= b < |g.ups| ==> g'.ups[b].url == g.ups[b].url
  }

  /** What a step leaves alone. */
  lemma {:induction false} StepShape(g: Route, m: Move)
    requires Enabled(g, m)
    ensures SameUrls(g, Step(g, m))
    ensures Step(g, m).settings == g.settings && Step(g, m).unparsable == g.unparsable
  {
    hide Act;
  }

  lemma {:induction false} StepMovesOne(g: Route, m: Move)
    requires Enabled(g, m)
    ensures !m.Flip? ==>
              && m.r in Step(g, m).requests
              && Step(g, m).requests == g.requests[m.r := Step(g, m).requests[m.r]]
    ensures m.Flip? ==> Step(g, m).requests == g.requests
  {
    hide Act;
  }

  lemma {:induction false} StepBreakers(g: Route, m: Move)
    requires Enabled(g, m)
    ensures Step(g, m).breakers.Keys == g.breakers.Keys
    ensures !m.AskBreaker? && !m.Answer? ==> Step(g, m).breakers == g.breakers
  {
    hide Act;
  }

  lemma {:induction false} StepAdmits(g: Route, m: Move)
    requires Enabled(g, m)
    ensures !m.AskBreaker? ==> Step(g, m).admitted == g.admitted
    ensures m.AskBreaker? ==> forall r: nat :: r != m.r ==>
              (r in Step(g, m).admitted <==> r in g.admitted)
              && (r in g.admitted ==> Step(g, m).admitted[r] == g.admitted[r])
  {
    hide Act;
  }

  // -------------------------------------------------------------- the counters

  /** Between Inc and Dec at backend b. */
  predicate CountedAt(s: Stage, b: nat)
  {
    (s.Parsing? || s.Proxying? || s.Marking? || s.Leaving?) && s.b == b
  }

  function Counted(requests: map<nat, Stage>, b: nat): set<nat>
  {
    set r | r in requests && CountedAt(requests[r], b)
  }

  ghost predicate Placed(g: Route)
  {
    forall r :: r in g.requests && HasBackend(g.requests[r]) ==> g.requests[r].b < |g.ups|
  }

  ghost predicate CountersExact(g: Route)
  {
    forall b :: 0 <= b < |g.ups| ==> g.ups[b].inflight == |Counted(g.requests, b)|
  }

  lemma {:induction false} CountedMoves(requests: map<nat, Stage>, r: nat, s: Stage, b: nat)
    ensures Counted(requests[r := s], b)
         == if CountedAt(s, b) then Counted(requests, b) + {r} else Counted(requests, b) - {r}
  {
  }

  /** One request's move changes the number counted at b by exactly what the counter does. */
  lemma {:induction false} CountedChange(requests: map<nat, Stage>, r: nat, s: Stage, b: nat)
    ensures |Counted(requests[r := s], b)|
         == |Counted(requests, b)|
            + (if CountedAt(s, b) then 1 else 0)
            - (if r in requests && CountedAt(requests[r], b) then 1 else 0)
  {
    CountedMoves(requests, r, s, b);
    var before := Counted(requests, b);
    assert r in before <==> r in requests && CountedAt(requests[r], b);
    if r in before {
      assert before + {r} == before;
      assert |before - {r}| == |before| - 1;
    } else {
      assert before - {r} == before;
    }
  }

  lemma {:induction false} CountersStep(g: Route, m: Move)
    requires Enabled(g, m) && Placed(g) && CountersExact(g)
    ensures Placed(Step(g, m)) && CountersExact(Step(g, m))
  {
    hide Counted, CountedAt, Step, Enabled;
    var g' := Step(g, m);
    StepShape(g, m);
    StepMovesOne(g, m);
    StaysPlaced(g, m);
    forall b | 0 <= b < |g'.ups| ensures g'.ups[b].inflight == |Counted(g'.requests, b)| {
      CounterMoves(g, m, b);
      if !m.Flip? {
        CountedChange(g.requests, m.r, g'.requests[m.r], b);
      }
    }
  }

  lemma {:induction false} StaysPlaced(g: Route, m: Move)
    requires Enabled(g, m) && Placed(g)
    ensures Placed(Step(g, m))
  {
    hide Act;
  }

  lemma {:induction false} CounterMoves(g: Route, m: Move, b: nat)
    requires Enabled(g, m) && b < |g.ups| && b < |Step(g, m).ups|
    ensures m.Flip? ==> Step(g, m).ups[b].inflight == g.ups[b].inflight
    ensures !m.Flip? ==>
              && m.r in Step(g, m).requests
              && Step(g, m).ups[b].inflight - g.ups[b].inflight
                 == (if CountedAt(Step(g, m).requests[m.r], b) then 1 else 0)
                    - (if m.r in g.requests && CountedAt(g.requests[m.r], b) then 1 else 0)
  {
    hide Act;
  }

  /** In every interleaving each backend's counter is the number of requests between Inc and Dec there. */
  lemma {:induction false} InflightIsExact(trace: seq<Route>, moves: seq<Move>, i: nat)
    requires IsRun(trace, moves) && i < |trace|
    ensures Placed(trace[i]) && CountersExact(trace[i])
    decreases i
  {
    hide Enabled, Step;
    if i == 0 {
      forall b | 0 <= b < |trace[0].ups| ensures trace[0].ups[b].inflight == |Counted(trace[0].requests, b)| {
        assert Counted(trace[0].requests, b) == {};
      }
    } else {
      InflightIsExact(trace, moves, i - 1);
      CountersStep(trace[i - 1], moves[i - 1]);
    }
  }

  /** So a counter is never negative, and is zero again once every request has gone. */
  lemma {:induction false} InflightDrains(trace: seq<Route>, moves: seq<Move>, i: nat, b: nat)
    requires IsRun(trace, moves) && i < |trace| && b < |trace[i].ups|
    ensures trace[i].ups[b].inflight >= 0
    ensures (forall r :: r in trace[i].requests ==> trace[i].requests[r].Gone?) ==> trace[i].ups[b].inflight == 0
  {
    InflightIsExact(trace, moves, i);
    if forall r :: r in trace[i].requests ==> trace[i].requests[r].Gone? {
      assert Counted(trace[i].requests, b) == {};
    }
  }

  // ------------------------------------------- the breakers see what the requests do

  /** Let through, and the proxy has not called back yet. */
  predicate Awaits(s: Stage)
  {
    s.Entering? || s.Parsing? || s.Proxying?
  }

  ghost predicate AwaitsAt(g: Route, s: Stage, url: string)
  {
    Awaits(s) && s.b < |g.ups| && g.ups[s.b].url == url
  }

  ghost function Awaiting(g: Route, url: string): set<nat>
  {
    set r | r in g.requests && AwaitsAt(g, g.requests[r], url)
  }

  /** Only requests that parsed their URL get to the proxy, and everyone let through is on the list. */
  ghost predicate TidyAt(g: Route, r: nat)
    requires Placed(g)
  {
    && (r in g.requests && (g.requests[r].Proxying? || g.requests[r].Marking?) ==>
          g.ups[g.requests[r].b].url !in g.unparsable)
    && (r in g.requests && HasBackend(g.requests[r]) && !g.requests[r].Asking? ==>
          r in g.admitted && g.admitted[r] == g.ups[g.requests[r].b].url)
    && (r in g.admitted ==>
          r in g.requests && !g.requests[r].Limiting? && !g.requests[r].Picking? && !g.requests[r].Asking?)
  }

  ghost predicate Tidy(g: Route)
  {
    Sensible(g.settings) && Placed(g) && forall r: nat :: TidyAt(g, r)
  }

  /** A URL's breaker is tracking exactly the requests that await its answer; one that never parses stays fresh. */
  ghost predicate Tracks(g: Route, url: string)
    requires url in g.breakers
  {
    if url in g.unparsable then g.breakers[url].b == Fresh
    else Accounted(g.settings, g.breakers[url]) && g.breakers[url].inFlight == Awaiting(g, url)
  }

  lemma {:induction false} AwaitingMoves(g: Route, g': Route, r: nat, url: string)
    requires SameUrls(g, g') && r in g'.requests && g'.requests == g.requests[r := g'.requests[r]]
    ensures Awaiting(g', url)
         == if AwaitsAt(g', g'.requests[r], url) then Awaiting(g, url) + {r} else Awaiting(g, url) - {r}
  {
    forall x ensures x in Awaiting(g', url) <==>
      x in (if AwaitsAt(g', g'.requests[r], url) then Awaiting(g, url) + {r} else Awaiting(g, url) - {r})
    {
      if x != r && x in g.requests {
        assert AwaitsAt(g', g'.requests[x], url) <==> AwaitsAt(g, g.requests[x], url);
      }
    }
  }

  lemma {:induction false} TidyStep(g: Route, m: Move)
    requires Enabled(g, m) && Tidy(g) && CountersExact(g)
    ensures Tidy(Step(g, m))
  {
    hide Act, Counted, Step, Enabled, TidyAt;
    CountersStep(g, m);
    StepShape(g, m);
    forall r: nat ensures TidyAt(Step(g, m), r) {
      if !m.Flip? && r == m.r {
        MoverStaysTidy(g, m);
      } else {
        OthersStayTidy(g, m, r);
      }
    }
  }

  lemma {:induction false} MoverStaysTidy(g: Route, m: Move)
    requires Enabled(g, m) && !m.Flip? && Placed(g) && TidyAt(g, m.r) && Placed(Step(g, m))
    ensures TidyAt(Step(g, m), m.r)
  {
    hide Act;
  }

  lemma {:induction false} OthersStayTidy(g: Route, m: Move, r: nat)
    requires Enabled(g, m) && (m.Flip? || m.r != r) && Placed(g) && TidyAt(g, r) && Placed(Step(g, m))
    ensures TidyAt(Step(g, m), r)
  {
    hide Enabled, Step;
    StepShape(g, m);
    StepMovesOne(g, m);
    StepAdmits(g, m);
  }

  /** Moves that neither ask a breaker nor report to one leave its requests as they are. */
  lemma {:induction false} OtherMovesTrack(g: Route, m: Move, url: string)
    requires Enabled(g, m) && Tidy(g) && url in g.breakers && Tracks(g, url)
    requires !m.AskBreaker? && !m.Answer?
    ensures url in Step(g, m).breakers && Tracks(Step(g, m), url)
  {
    hide Act, Accounted;
    var g' := Step(g, m);
    if m.Flip? {
      forall r ensures r in Awaiting(g', url) <==> r in Awaiting(g, url) { }
    } else {
      AwaitingMoves(g, g', m.r, url);
      if url !in g.unparsable {
        ParseKeepsWaiting(g, m, url);
      }
    }
  }

  lemma {:induction false} ParseKeepsWaiting(g: Route, m: Move, url: string)
    requires Enabled(g, m) && Tidy(g) && !m.AskBreaker? && !m.Answer? && !m.Flip? && url !in g.unparsable
    ensures m.r in Step(g, m).requests
    ensures AwaitsAt(Step(g, m), Step(g, m).requests[m.r], url) <==> m.r in Awaiting(g, url)
  {
    hide Act;
  }

  lemma {:induction false} AskTracks(g: Route, m: Move, url: string)
    requires Enabled(g, m) && Tidy(g) && url in g.breakers && Tracks(g, url) && m.AskBreaker?
    ensures url in Step(g, m).breakers && Tracks(Step(g, m), url)
  {
    hide Accounted;
    var g' := Step(g, m);
    var t := g.breakers[url];
    AwaitingMoves(g, g', m.r, url);
    assert m.r !in Awaiting(g, url);
    if g.ups[g.requests[m.r].b].url == url && url !in g.unparsable {
      ActKeepsAccounts(g.settings, t, Request(m.r, m.at));
    }
  }

  lemma {:induction false} AnswerTracks(g: Route, m: Move, url: string)
    requires Enabled(g, m) && Tidy(g) && url in g.breakers && Tracks(g, url) && m.Answer?
    ensures url in Step(g, m).breakers && Tracks(Step(g, m), url)
  {
    hide Accounted;
    var g' := Step(g, m);
    var t := g.breakers[url];
    AwaitingMoves(g, g', m.r, url);
    if g.ups[g.requests[m.r].b].url == url {
      assert TidyAt(g, m.r) && m.r in Awaiting(g, url);
      ActKeepsAccounts(g.settings, t, Report(m.r, m.ok, m.at, m.later));
    } else {
      assert m.r !in Awaiting(g, url);
    }
  }

  lemma {:induction false} BreakersTrack(trace: seq<Route>, moves: seq<Move>, i: nat)
    requires IsRun(trace, moves) && i < |trace|
    ensures Tidy(trace[i]) && CountersExact(trace[i])
    ensures forall u :: u in trace[i].breakers ==> Tracks(trace[i], u)
    decreases i
  {
    hide Enabled, Step, Tracks;
    InflightIsExact(trace, moves, i);
    if i == 0 {
      forall u | u in trace[0].breakers ensures Tracks(trace[0], u) {
        FreshTracks(trace[0], u);
      }
    } else {
      BreakersTrack(trace, moves, i - 1);
      var g, m := trace[i - 1], moves[i - 1];
      TidyStep(g, m);
      StepBreakers(g, m);
      forall u | u in trace[i].breakers ensures Tracks(trace[i], u) {
        assert u in g.breakers;
        if m.AskBreaker? {
          AskTracks(g, m, u);
        } else if m.Answer? {
          AnswerTracks(g, m, u);
        } else {
          OtherMovesTrack(g, m, u);
        }
      }
    }
  }

  lemma {:induction false} FreshTracks(g: Route, url: string)
    requires Initial(g) && url in g.breakers
    ensures Tracks(g, url)
  {
    assert Awaiting(g, url) == {};
  }

  /**
   * The route never wedges on a breaker. If a half-open breaker turns requests away, then some request
   * on its URL is still on its way to an answer; any answer there makes the breaker leave half-open.
   */
  lemma {:induction false} RouteNeverWedges(trace: seq<Route>, moves: seq<Move>, i: nat, url: string, now: int)
    requires IsRun(trace, moves) && i < |trace| && url in trace[i].breakers
    requires trace[i].breakers[url].b.phase.HalfOpen? && !Admits(trace[i].settings, trace[i].breakers[url].b, now)
    ensures exists r :: r in trace[i].requests && AwaitsAt(trace[i], trace[i].requests[r], url)
    ensures forall m: Move :: m.Answer? && Enabled(trace[i], m) && AwaitsAt(trace[i], trace[i].requests[m.r], url) ==>
              url in Step(trace[i], m).breakers && !Step(trace[i], m).breakers[url].b.phase.HalfOpen?
  {
    var g := trace[i];
    BreakersTrack(trace, moves, i);
    assert Tracks(g, url);
    var t := g.breakers[url];
    assert |t.probes| >= 1;
    var r :| r in t.probes;
    assert r in Awaiting(g, url);
  }

  /** Once every request has gone, one full wait is the longest any URL can still be refused. */
  lemma {:induction false} DrainedRouteAdmits(trace: seq<Route>, moves: seq<Move>, i: nat, url: string, now: int)
    requires IsRun(trace, moves) && i < |trace| && url in trace[i].breakers
    requires forall r :: r in trace[i].requests ==> trace[i].requests[r].Gone?
    requires now > trace[i].breakers[url].b.openAt + trace[i].settings.openFor
    ensures Admits(trace[i].settings, trace[i].breakers[url].b, now)
  {
    if trace[i].breakers[url].b.phase.HalfOpen? && !Admits(trace[i].settings, trace[i].breakers[url].b, now) {
      RouteNeverWedges(trace, moves, i, url, now);
    }
  }

  // ---------------------------------------------------------- every outcome once

  /** The request's part in the record, told by where it is. */
  ghost predicate RecordedRight(g: Route, r: nat)
  {
    g.recorded[r] ==
      if r in g.admitted && g.admitted[r] !in g.unparsable && r in g.requests && !Awaits(g.requests[r]) then 1 else 0
  }

  lemma {:induction false} RecordStep(g: Route, m: Move, r: nat)
    requires Enabled(g, m) && Tidy(g) && RecordedRight(g, r)
    ensures RecordedRight(Step(g, m), r)
  {
    hide Act;
    assert TidyAt(g, r);
  }

  /**
   * Every request that a breaker let through and whose URL parses is recorded exactly once by the
   * time it is uncounted; one that was refused, or whose URL does not parse, never is.
   */
  lemma {:induction false} RecordedExactlyOnce(trace: seq<Route>, moves: seq<Move>, i: nat, r: nat)
    requires IsRun(trace, moves) && i < |trace|
    ensures RecordedRight(trace[i], r)
    decreases i
  {
    hide Enabled, Step, Tidy, Tracks;
    if i > 0 {
      RecordedExactlyOnce(trace, moves, i - 1, r);
      BreakersTrack(trace, moves, i - 1);
      RecordStep(trace[i - 1], moves[i - 1], r);
    }
  }
}
