/**
 * What a run of the protocol leaves behind, told from its moves alone: the outcome each breaker was
 * told is the outcome the request had, and so is the alive flag of its backend.
 */
module RequestHistory {
  import opened RequestProtocol
  import opened BreakerProbes
  import BreakerSpec

  /** The backend the balancer last gave to r. */
  function PickOf(moves: seq<Move>, r: nat): nat
  {
    if moves == [] then 0
    else
      var m := moves[|moves| - 1];
      if m.Pick? && m.r == r then m.b else PickOf(moves[..|moves| - 1], r)
  }

  /** Whether the upstream last answered r well. */
  function OutcomeOf(moves: seq<Move>, r: nat): bool
  {
    if moves == [] then false
    else
      var m := moves[|moves| - 1];
      if m.Answer? && m.r == r then m.ok else OutcomeOf(moves[..|moves| - 1], r)
  }

  predicate Concerns(urls: seq<string>, moves: seq<Move>, r: nat, url: string)
  {
    PickOf(moves, r) < |urls| && urls[PickOf(moves, r)] == url
  }

  /** What the breaker of a URL is to hear of one move: a request that asks there, or an answer as it came out. */
  function Heard(urls: seq<string>, before: seq<Move>, m: Move, url: string): seq<BreakerSpec.Event>
  {
    match m
    case AskBreaker(r, at) => if Concerns(urls, before, r, url) then [BreakerSpec.Ask(at)] else []
    case Answer(r, ok, at, later) =>
      if !Concerns(urls, before, r, url) then []
      else if ok then [BreakerSpec.Good(at)]
      else [BreakerSpec.Bad(at, later)]
    case _ => []
  }

  /** And of all of them, in order. */
  function EventsAt(urls: seq<string>, moves: seq<Move>, url: string): seq<BreakerSpec.Event>
  {
    if moves == [] then []
    else
      var before := moves[..|moves| - 1];
      EventsAt(urls, before, url) + Heard(urls, before, moves[|moves| - 1], url)
  }

  /** The flag last written for b: by the health checker, or by a request it served, as its outcome. */
  function AliveAfter(start: bool, moves: seq<Move>, b: nat): bool
  {
    if moves == [] then start
    else
      var before, m := moves[..|moves| - 1], moves[|moves| - 1];
      if m.Flip? && m.b == b then m.alive
      else if m.Mark? && PickOf(before, m.r) == b then OutcomeOf(before, m.r)
      else AliveAfter(start, before, b)
  }

  // ------------------------------------------------------------ stages remember

  /** A request's stage carries the backend it was given and, once answered, its outcome. */
  ghost predicate Remembers(g: Route, moves: seq<Move>, r: nat)
  {
    r in g.requests ==>
      && (HasBackend(g.requests[r]) ==> g.requests[r].b == PickOf(moves, r))
      && (g.requests[r].Marking? ==> g.requests[r].healthy == OutcomeOf(moves, r))
  }

  lemma {:induction false} MemoryNext(moves: seq<Move>, m: Move, r: nat)
    ensures PickOf(moves + [m], r) == if m.Pick? && m.r == r then m.b else PickOf(moves, r)
    ensures OutcomeOf(moves + [m], r) == if m.Answer? && m.r == r then m.ok else OutcomeOf(moves, r)
  {
    assert (moves + [m])[..|moves|] == moves;
  }

  lemma {:induction false} StepRemembers(g: Route, moves: seq<Move>, m: Move, r: nat)
    requires Enabled(g, m) && Remembers(g, moves, r)
    ensures Remembers(Step(g, m), moves + [m], r)
  {
    hide Act, PickOf, OutcomeOf;
    MemoryNext(moves, m, r);
  }

  lemma {:induction false} AlwaysRemembers(trace: seq<Route>, moves: seq<Move>, i: nat, r: nat)
    requires IsRun(trace, moves) && i < |trace|
    ensures Remembers(trace[i], moves[..i], r)
    decreases i
  {
    hide Enabled, Step;
    if i > 0 {
      AlwaysRemembers(trace, moves, i - 1, r);
      assert moves[..i] == moves[..i - 1] + [moves[i - 1]];
      StepRemembers(trace[i - 1], moves[..i - 1], moves[i - 1], r);
    }
  }

  // ----------------------------------------------------------- what was written

  ghost function UrlsOf(g: Route): (urls: seq<string>)
    ensures |urls| == |g.ups| && forall b :: 0 <= b < |urls| ==> urls[b] == g.ups[b].url
  {
    seq(|g.ups|, b requires 0 <= b < |g.ups| => g.ups[b].url)
  }

  lemma {:induction false} UrlsStay(trace: seq<Route>, moves: seq<Move>, i: nat)
    requires IsRun(trace, moves) && i < |trace|
    ensures UrlsOf(trace[i]) == UrlsOf(trace[0])
    ensures trace[i].breakers.Keys == trace[0].breakers.Keys && trace[i].settings == trace[0].settings
    decreases i
  {
    hide Enabled, Step;
    if i > 0 {
      UrlsStay(trace, moves, i - 1);
      StepShape(trace[i - 1], moves[i - 1]);
      StepBreakers(trace[i - 1], moves[i - 1]);
    }
  }

  lemma {:induction false} EventsNext(urls: seq<string>, moves: seq<Move>, m: Move, url: string)
    ensures EventsAt(urls, moves + [m], url) == EventsAt(urls, moves, url) + Heard(urls, moves, m, url)
    ensures EventsAt(urls, [], url) == []
  {
    assert (moves + [m])[..|moves|] == moves;
  }

  /** One step's effect on the breaker of one URL is what that breaker was to hear. */
  lemma {:induction false} BreakerHears(g: Route, before: seq<Move>, m: Move, url: string)
    requires Enabled(g, m) && url in g.breakers && (!m.Flip? ==> Remembers(g, before, m.r))
    ensures url in Step(g, m).breakers
    ensures var heard := Heard(UrlsOf(g), before, m, url);
            Step(g, m).breakers[url].b
            == if heard == [] then g.breakers[url].b else BreakerSpec.Step(g.settings, g.breakers[url].b, heard[0])
    ensures |Heard(UrlsOf(g), before, m, url)| <= 1
  {
    hide PickOf, OutcomeOf, BreakerSpec.Step;
  }

  lemma {:induction false} RunNext(c: BreakerSpec.Config, es: seq<BreakerSpec.Event>, more: seq<BreakerSpec.Event>)
    requires |more| <= 1
    ensures BreakerSpec.Run(c, BreakerSpec.Fresh, es + more)
         == if more == [] then BreakerSpec.Run(c, BreakerSpec.Fresh, es)
            else BreakerSpec.Step(c, BreakerSpec.Run(c, BreakerSpec.Fresh, es), more[0])
    ensures BreakerSpec.Run(c, BreakerSpec.Fresh, []) == BreakerSpec.Fresh
  {
    if more == [] {
      assert es + more == es;
    } else {
      assert (es + more)[..|es|] == es;
    }
  }

  /**
   * In every interleaving, a URL's breaker is where the plain breaker would be after exactly the
   * requests that asked there and the outcomes they had: a success for each healthy answer, a failure
   * for each other, in the order they were reported.
   */
  lemma {:induction false} BreakersHearOutcomes(trace: seq<Route>, moves: seq<Move>, i: nat, url: string)
    requires IsRun(trace, moves) && i < |trace| && url in trace[0].breakers
    ensures url in trace[i].breakers
    ensures trace[i].breakers[url].b
         == BreakerSpec.Run(trace[0].settings, BreakerSpec.Fresh, EventsAt(UrlsOf(trace[0]), moves[..i], url))
    decreases i
  {
    hide Enabled, Step, EventsAt, Heard, Remembers, BreakerSpec.Step, BreakerSpec.Run, UrlsOf;
    var urls := UrlsOf(trace[0]);
    if i == 0 {
      EventsNext(urls, [], Flip(0, true), url);
      RunNext(trace[0].settings, [], []);
    } else {
      var g, m, before := trace[i - 1], moves[i - 1], moves[..i - 1];
      BreakersHearOutcomes(trace, moves, i - 1, url);
      UrlsStay(trace, moves, i - 1);
      if !m.Flip? {
        AlwaysRemembers(trace, moves, i - 1, m.r);
      }
      BreakerHears(g, before, m, url);
      assert moves[..i] == before + [m];
      EventsNext(urls, before, m, url);
      RunNext(trace[0].settings, EventsAt(urls, before, url), Heard(urls, before, m, url));
    }
  }

  /**
   * A request that asks goes on exactly if its URL has no breaker or the plain breaker, after all that
   * was reported there so far, admits it; otherwise it is gone.
   */
  lemma {:induction false} AskDecides(trace: seq<Route>, moves: seq<Move>, i: nat, url: string)
    requires IsRun(trace, moves) && i < |moves| && moves[i].AskBreaker?
    requires Concerns(UrlsOf(trace[0]), moves[..i], moves[i].r, url)
    ensures var b := BreakerSpec.Run(trace[0].settings, BreakerSpec.Fresh, EventsAt(UrlsOf(trace[0]), moves[..i], url));
            && moves[i].r in trace[i + 1].requests
            && trace[i + 1].requests[moves[i].r]
               == if url !in trace[0].breakers || BreakerSpec.Admits(trace[0].settings, b, moves[i].at)
                  then Entering(PickOf(moves[..i], moves[i].r)) else Gone
  {
    hide EventsAt, PickOf, BreakerSpec.Admits, BreakerSpec.Run, Act;
    assert Enabled(trace[i], moves[i]) && trace[i + 1] == Step(trace[i], moves[i]);
    UrlsStay(trace, moves, i);
    AlwaysRemembers(trace, moves, i, moves[i].r);
    assert trace[i].ups[trace[i].requests[moves[i].r].b].url == UrlsOf(trace[i])[trace[i].requests[moves[i].r].b];
    if url in trace[0].breakers {
      BreakersHearOutcomes(trace, moves, i, url);
    }
  }

  /** And each alive flag is what was last written: a health check, or the outcome of a request served there. */
  lemma {:induction false} FlagsTellOutcomes(trace: seq<Route>, moves: seq<Move>, i: nat, b: nat)
    requires IsRun(trace, moves) && i < |trace| && b < |trace[0].ups|
    ensures |trace[i].ups| == |trace[0].ups|
    ensures trace[i].ups[b].alive == AliveAfter(trace[0].ups[b].alive, moves[..i], b)
    decreases i
  {
    hide Enabled, Step, AliveAfter, Remembers;
    var start := trace[0].ups[b].alive;
    if i == 0 {
      AliveNext(start, [], Flip(0, true), b);
    } else {
      var g, m, before := trace[i - 1], moves[i - 1], moves[..i - 1];
      FlagsTellOutcomes(trace, moves, i - 1, b);
      if !m.Flip? {
        AlwaysRemembers(trace, moves, i - 1, m.r);
      }
      FlagStep(g, before, m, b);
      assert moves[..i] == before + [m];
      AliveNext(start, before, m, b);
    }
  }

  lemma {:induction false} AliveNext(start: bool, moves: seq<Move>, m: Move, b: nat)
    ensures AliveAfter(start, moves + [m], b)
         == if m.Flip? && m.b == b then m.alive
            else if m.Mark? && PickOf(moves, m.r) == b then OutcomeOf(moves, m.r)
            else AliveAfter(start, moves, b)
    ensures AliveAfter(start, [], b) == start
  {
    assert (moves + [m])[..|moves|] == moves;
  }

  lemma {:induction false} FlagStep(g: Route, before: seq<Move>, m: Move, b: nat)
    requires Enabled(g, m) && b < |g.ups| && (!m.Flip? ==> Remembers(g, before, m.r))
    ensures |Step(g, m).ups| == |g.ups|
    ensures Step(g, m).ups[b].alive
         == if m.Flip? && m.b == b then m.alive
            else if m.Mark? && PickOf(before, m.r) == b then OutcomeOf(before, m.r)
            else g.ups[b].alive
  {
    hide Act, PickOf, OutcomeOf;
  }

  // ------------------------------------------------------------- limited requests

  ghost predicate TurnedAway(g: Route, r: nat)
  {
    r in g.requests && g.requests[r].Gone? && r !in g.admitted && g.recorded[r] == 0
  }

  lemma {:induction false} LimitStep(g: Route, m: Move)
    requires Enabled(g, m) && m.Limit? && Tidy(g) && RecordedRight(g, m.r)
    ensures m.r in Step(g, m).requests
    ensures if m.ok then Step(g, m).requests[m.r].Picking? else TurnedAway(Step(g, m), m.r)
  {
    assert TidyAt(g, m.r);
  }

  lemma {:induction false} StaysTurnedAway(g: Route, m: Move, r: nat)
    requires Enabled(g, m) && TurnedAway(g, r)
    ensures TurnedAway(Step(g, m), r)
  {
    hide Act;
  }

  /**
   * A request the limiter refuses is gone for good: it asks no breaker and is reported to none. One it
   * lets through goes on.
   */
  lemma {:induction false} LimiterDecides(trace: seq<Route>, moves: seq<Move>, i: nat, j: nat)
    requires IsRun(trace, moves) && i < j < |trace| && moves[i].Limit?
    ensures moves[i].ok ==> moves[i].r in trace[i + 1].requests && trace[i + 1].requests[moves[i].r].Picking?
    ensures !moves[i].ok ==> TurnedAway(trace[j], moves[i].r)
    decreases j
  {
    hide Enabled, Step, Tidy, TurnedAway, RecordedRight;
    if j == i + 1 {
      BreakersTrack(trace, moves, i);
      RecordedExactlyOnce(trace, moves, i, moves[i].r);
      LimitStep(trace[i], moves[i]);
    } else {
      LimiterDecides(trace, moves, i, j - 1);
      if !moves[i].ok {
        StaysTurnedAway(trace[j - 1], moves[j - 1], moves[i].r);
      }
    }
  }

  // ------------------------------------------------------------------ every answer

  function AnswersTo(moves: seq<Move>, r: nat): set<nat>
  {
    set k | 0 <= k < |moves| && moves[k].Answer? && moves[k].r == r
  }

  lemma {:induction false} AnswersNext(moves: seq<Move>, m: Move, r: nat)
    ensures AnswersTo([], r) == {}
    ensures |AnswersTo(moves + [m], r)| == |AnswersTo(moves, r)| + if m.Answer? && m.r == r then 1 else 0
  {
    assert AnswersTo(moves + [m], r)
        == AnswersTo(moves, r) + if m.Answer? && m.r == r then {|moves|} else {};
  }

  /** Each request is reported as often as it was answered. */
  lemma {:induction false} RecordedIsAnswered(trace: seq<Route>, moves: seq<Move>, i: nat, r: nat)
    requires IsRun(trace, moves) && i < |trace|
    ensures trace[i].recorded[r] == |AnswersTo(moves[..i], r)|
    decreases i
  {
    hide Enabled, Step, AnswersTo;
    if i == 0 {
      AnswersNext([], Flip(0, true), r);
    } else {
      RecordedIsAnswered(trace, moves, i - 1, r);
      RecordedNext(trace[i - 1], moves[i - 1], r);
      assert moves[..i] == moves[..i - 1] + [moves[i - 1]];
      AnswersNext(moves[..i - 1], moves[i - 1], r);
    }
  }

  lemma {:induction false} RecordedNext(g: Route, m: Move, r: nat)
    requires Enabled(g, m)
    ensures Step(g, m).recorded[r] == g.recorded[r] + if m.Answer? && m.r == r then 1 else 0
  {
    hide Act;
  }
}
