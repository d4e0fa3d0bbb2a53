/**
 * Least connections, read by read: how far backends that start level can drift apart, and where they
 * stay within the number of requests in flight. Two requests at most in flight are enough for any
 * number of backends, and three are still few enough for three backends.
 */
module LeastConnTight {
  import opened Collections
  import opened LeastConnScan

  // ------------------------------------------------------- who is in flight when

  /** Everyone counted at b between the two moments. */
  function Landed(trace: seq<Pool>, s: nat, t: nat, b: nat): set<nat>
    requires s < |trace| && t < |trace|
  {
    CountedAt(trace[t], b) - CountedAt(trace[s], b)
  }

  /** A request that has begun by moment s and is neither counted nor refused by then is in flight. */
  lemma {:induction false} StillInFlight(
    trace: seq<Pool>, moves: seq<Move>, n: nat, level: int, c: nat, since: nat, s: nat, t: nat, r: nat)
    requires IsRun(trace, moves, n, level, c) && since <= s <= t < |trace|
    requires r in trace[since].requests && r in trace[t].requests
    requires
      || Busy(trace[t].requests[r])
      || (trace[t].requests[r].Counted? && r !in CountedAt(trace[s], trace[t].requests[r].best))
    ensures r in InFlight(trace[s])
  {
    hide IsRun;
    StaysOnRecord(trace, moves, n, level, c, since, s, r);
    StaysOnRecord(trace, moves, n, level, c, s, t, r);
  }

  /** The last moment up to t at which the load at b was still at most `mark`. */
  lemma {:induction false} LastAtMost(
    trace: seq<Pool>, moves: seq<Move>, n: nat, level: int, c: nat, t: nat, b: nat, mark: int)
    returns (s: nat)
    requires IsRun(trace, moves, n, level, c) && t < |trace| && b < n && level <= mark
    ensures s <= t && |trace[s].loads| == n && trace[s].loads[b] <= mark
    ensures forall u :: s < u <= t ==> |trace[u].loads| == n && trace[u].loads[b] > mark
    decreases t
  {
    LoadIsCount(trace, moves, n, level, c, t, b);
    if trace[t].loads[b] <= mark {
      s := t;
    } else {
      s := LastAtMost(trace, moves, n, level, c, t - 1, b, mark);
    }
  }

  /**
   * If everyone counted at b first read its load at `mark` or below, then those counted above the
   * mark were all in flight together at the last moment the load was no higher.
   */
  lemma {:induction false} InFlightTogether(
    trace: seq<Pool>, moves: seq<Move>, n: nat, level: int, c: nat, t: nat, b: nat, mark: int)
    returns (s: nat)
    requires IsRun(trace, moves, n, level, c) && t < |trace| && b < n && level <= mark
    requires forall u :: 0 <= u < |trace| ==> |trace[u].loads| == n
    requires forall z :: z in CountedAt(trace[t], b) ==>
               trace[t].requests[z].since <= t && trace[trace[t].requests[z].since].loads[b] <= mark
    ensures s <= t && trace[s].loads[b] <= mark
    ensures forall u :: s < u <= t ==> trace[u].loads[b] > mark
    ensures |Landed(trace, s, t, b)| >= trace[t].loads[b] - mark
    ensures Landed(trace, s, t, b) <= InFlight(trace[s])
  {
    hide IsRun;
    s := LastAtMost(trace, moves, n, level, c, t, b, mark);
    LoadIsCount(trace, moves, n, level, c, s, b);
    LoadIsCount(trace, moves, n, level, c, t, b);
    forall z | z in CountedAt(trace[s], b) ensures z in CountedAt(trace[t], b) {
      StaysOnRecord(trace, moves, n, level, c, s, t, z);
    }
    forall z | z in Landed(trace, s, t, b) ensures z in InFlight(trace[s]) {
      AlwaysJustified(trace, moves, n, level, c, t, z);
      StillInFlight(trace, moves, n, level, c, trace[t].requests[z].since, s, t, z);
    }
  }

  /** The comparison at which a request took its candidate over from an earlier one. */
  lemma {:induction false} Turn(
    trace: seq<Pool>, moves: seq<Move>, n: nat, level: int, c: nat, t: nat, r: nat) returns (v: nat)
    requires IsRun(trace, moves, n, level, c) && t < |trace|
    requires forall u :: 0 <= u < |trace| ==> |trace[u].loads| == n
    requires r in trace[t].requests && !trace[t].requests[r].Refused? && trace[t].requests[r].best > 0
    ensures v < t && r in trace[v].requests
    ensures var s, s' := trace[v].requests[r], trace[t].requests[r];
            && s.Comparing? && s.i == s'.best < n && s.at == s'.since && s.best < s.i
            && s.seen < trace[v].loads[s.best]
    decreases t
  {
    hide Enabled, Step;
    var s' := trace[t].requests[r];
    AlwaysJustified(trace, moves, n, level, c, t - 1, r);
    TurnStep(trace[t - 1], moves[t - 1], t - 1, r);
    var s := trace[t - 1].requests[r];
    if s.best == s'.best && s.since == s'.since {
      v := Turn(trace, moves, n, level, c, t - 1, r);
    } else {
      v := t - 1;
    }
  }

  lemma {:induction false} TurnStep(p: Pool, m: Move, t: nat, r: nat)
    requires Enabled(p, m)
    requires r in Step(p, m, t).requests && !Step(p, m, t).requests[r].Refused? && Step(p, m, t).requests[r].best > 0
    ensures r in p.requests && !p.requests[r].Refused?
    ensures var s, s' := p.requests[r], Step(p, m, t).requests[r];
            || (s'.best == s.best && s'.since == s.since)
            || (s.Comparing? && s.best < |p.loads| && s.seen < p.loads[s.best] && s'.best == s.i && s'.since == s.at)
  {
  }

  // -------------------------------------------------- how far a candidate can be off

  /** How far the candidate b may have been above another backend: nothing at first, then c - 2 for every takeover. */
  function Excess(b: nat, c: nat): int
  {
    if b <= 1 || c <= 2 then 0 else (b - 1) * (c - 2)
  }

  lemma {:induction false} Times(a: nat, b: nat, d: nat)
    requires a <= b
    ensures 0 <= a * d <= b * d
  {
    assert b * d == a * d + (b - a) * d;
  }

  lemma {:induction false} ExcessGrows(q: nat, i: nat, c: nat)
    requires q < i
    ensures 0 <= Excess(q, c) <= Excess(i, c)
    ensures i >= 2 && c >= 2 ==> Excess(q, c) + c - 2 <= Excess(i, c)
  {
    if c > 2 && i >= 2 {
      Times(1, i - 1, c - 2);
      if q > 1 {
        Times(0, q - 1, c - 2);
        Times(q, i - 1, c - 2);
        assert q * (c - 2) == (q - 1) * (c - 2) + (c - 2);
      }
    }
  }

  /** When its load was first read, the candidate was at most Excess above what every backend compared has now. */
  ghost predicate Near(trace: seq<Pool>, n: nat, c: nat, t: nat, r: nat)
    requires t < |trace| && (forall u :: 0 <= u < |trace| ==> |trace[u].loads| == n)
  {
    r in trace[t].requests && !trace[t].requests[r].Refused? ==>
      var s := trace[t].requests[r];
      && s.since <= t && s.best < Reach(s, n) <= n
      && forall k :: 0 <= k < Reach(s, n) ==> trace[s.since].loads[s.best] <= trace[t].loads[k] + Excess(s.best, c)
  }

  /** While a request watches its candidate, at most c - 1 others can run it up beyond where they saw it. */
  lemma {:induction false} TakeoverIsNear(
    trace: seq<Pool>, moves: seq<Move>, n: nat, level: int, c: nat, t: nat, r: nat, k: nat)
    requires IsRun(trace, moves, n, level, c) && t < |trace|
    requires forall u :: 0 <= u < |trace| ==> |trace[u].loads| == n
    requires forall z: nat :: Near(trace, n, c, t, z)
    requires r in trace[t].requests
    requires var s := trace[t].requests[r];
             s.Comparing? && k < s.i < n && s.best < s.i && s.seen < trace[t].loads[s.best]
    ensures trace[t].requests[r].seen <= trace[t].loads[k] + Excess(trace[t].requests[r].i, c)
  {
    hide IsRun, Excess;
    var s := trace[t].requests[r];
    var mark := trace[t].loads[k] + Excess(s.best, c);
    assert Near(trace, n, c, t, r);
    ExcessGrows(s.best, s.i, c);
    if k != s.best && s.seen > trace[t].loads[k] + Excess(s.i, c) {
      LoadWithinDemand(trace, moves, n, level, c, t, k);
      forall z | z in CountedAt(trace[t], s.best)
        ensures trace[t].requests[z].since <= t && trace[trace[t].requests[z].since].loads[s.best] <= mark
      {
        assert Near(trace, n, c, t, z);
      }
      var u := InFlightTogether(trace, moves, n, level, c, t, s.best, mark);
      AlwaysJustified(trace, moves, n, level, c, t, r);
      StillInFlight(trace, moves, n, level, c, s.since, u, t, r);
      OneMore(Landed(trace, u, t, s.best), r, InFlight(trace[u]));
      InFlightIsFew(trace, moves, n, level, c, u);
    }
  }

  lemma {:induction false} InFlightIsFew(trace: seq<Pool>, moves: seq<Move>, n: nat, level: int, c: nat, t: nat)
    requires IsRun(trace, moves, n, level, c) && t < |trace|
    ensures |InFlight(trace[t])| <= c
  {
  }

  lemma {:induction false} OneMore<T>(a: set<T>, x: T, b: set<T>)
    requires a <= b && x in b && x !in a
    ensures |a| + 1 <= |b|
  {
    Fewer(a + {x}, b);
  }

  lemma {:induction false} AlwaysNear(trace: seq<Pool>, moves: seq<Move>, n: nat, level: int, c: nat, t: nat)
    requires IsRun(trace, moves, n, level, c) && t < |trace|
    requires forall u :: 0 <= u < |trace| ==> |trace[u].loads| == n
    ensures forall r: nat :: Near(trace, n, c, t, r)
    decreases t
  {
    hide IsRun, Enabled, Step, Near;
    if t == 0 {
      NobodyYet(trace, moves, n, level, c);
    } else {
      AlwaysNear(trace, moves, n, level, c, t - 1);
      forall r: nat ensures Near(trace, n, c, t, r) {
        NearStep(trace, moves, n, level, c, t - 1, r);
      }
    }
  }

  lemma {:induction false} NobodyYet(trace: seq<Pool>, moves: seq<Move>, n: nat, level: int, c: nat)
    requires IsRun(trace, moves, n, level, c)
    requires forall u :: 0 <= u < |trace| ==> |trace[u].loads| == n
    ensures forall r: nat :: Near(trace, n, c, 0, r)
  {
  }

  lemma {:induction false} NearStep(trace: seq<Pool>, moves: seq<Move>, n: nat, level: int, c: nat, t: nat, r: nat)
    requires IsRun(trace, moves, n, level, c) && t + 1 < |trace|
    requires forall u :: 0 <= u < |trace| ==> |trace[u].loads| == n
    requires forall z: nat :: Near(trace, n, c, t, z)
    ensures Near(trace, n, c, t + 1, r)
  {
    hide IsRun, Step, Enabled;
    MoveAt(trace, moves, n, level, c, t);
    assert Near(trace, n, c, t, r);
    forall k | 0 <= k < n ensures trace[t].loads[k] <= trace[t + 1].loads[k] {
      LoadsGrow(trace, moves, n, level, c, t, t + 1, k);
    }
    if moves[t].r != r {
      OthersStay(trace[t], moves[t], t, r);
      NearElsewhere(trace, n, c, t, r);
    } else if moves[t].Compare? {
      if r in trace[t].requests {
        AlwaysJustified(trace, moves, n, level, c, t, r);
        NearAfterCompare(trace, moves, n, level, c, t, r);
      }
    } else {
      NearOtherwise(trace, n, c, t, moves[t]);
    }
  }

  lemma {:induction false} NearElsewhere(trace: seq<Pool>, n: nat, c: nat, t: nat, r: nat)
    requires t + 1 < |trace|
    requires forall u :: 0 <= u < |trace| ==> |trace[u].loads| == n
    requires forall k :: 0 <= k < n ==> trace[t].loads[k] <= trace[t + 1].loads[k]
    requires r in trace[t + 1].requests <==> r in trace[t].requests
    requires r in trace[t].requests ==> trace[t + 1].requests[r] == trace[t].requests[r]
    requires Near(trace, n, c, t, r)
    ensures Near(trace, n, c, t + 1, r)
  {
    if r in trace[t].requests && !trace[t].requests[r].Refused? {
      var s := trace[t].requests[r];
      forall k {:trigger trace[t + 1].loads[k]} | 0 <= k < Reach(s, n)
        ensures trace[s.since].loads[s.best] <= trace[t + 1].loads[k] + Excess(s.best, c)
      {
        assert trace[t].loads[k] <= trace[t + 1].loads[k];
      }
    }
  }

  lemma {:induction false} NearAfterCompare(
    trace: seq<Pool>, moves: seq<Move>, n: nat, level: int, c: nat, t: nat, r: nat)
    requires IsRun(trace, moves, n, level, c) && t + 1 < |trace| && moves[t] == Compare(r)
    requires forall u :: 0 <= u < |trace| ==> |trace[u].loads| == n
    requires forall z: nat :: Near(trace, n, c, t, z)
    requires Justified(trace, n, t, r)
    ensures Near(trace, n, c, t + 1, r)
  {
    MoveAt(trace, moves, n, level, c, t);
    hide IsRun, Excess;
    assert Near(trace, n, c, t, r);
    var s := trace[t].requests[r];
    ExcessGrows(s.best, s.i, c);
    LoadsGrow(trace, moves, n, level, c, s.since, t, s.best);
    LoadsGrow(trace, moves, n, level, c, s.at, t, s.i);
    if s.seen < trace[t].loads[s.best] {
      forall k | 0 <= k < s.i ensures s.seen <= trace[t].loads[k] + Excess(s.i, c) {
        TakeoverIsNear(trace, moves, n, level, c, t, r, k);
      }
    }
  }

  lemma {:induction false} NearOtherwise(trace: seq<Pool>, n: nat, c: nat, t: nat, m: Move)
    requires t + 1 < |trace| && !m.Compare?
    requires forall u :: 0 <= u < |trace| ==> |trace[u].loads| == n
    requires Enabled(trace[t], m) && trace[t + 1] == Step(trace[t], m, t)
    requires forall k :: 0 <= k < n ==> trace[t].loads[k] <= trace[t + 1].loads[k]
    requires Near(trace, n, c, t, m.r)
    ensures Near(trace, n, c, t + 1, m.r)
  {
  }

  lemma {:induction false} MoveAt(trace: seq<Pool>, moves: seq<Move>, n: nat, level: int, c: nat, t: nat)
    requires IsRun(trace, moves, n, level, c) && t + 1 < |trace|
    ensures t < |moves| && Enabled(trace[t], moves[t]) && trace[t + 1] == Step(trace[t], moves[t], t)
  {
  }

  /** Load at j with everyone who has settled on it, against the load anywhere. */
  lemma {:induction false} DemandIsBounded(
    trace: seq<Pool>, moves: seq<Move>, n: nat, level: int, c: nat, t: nat, j: nat, k: nat)
    requires IsRun(trace, moves, n, level, c) && t < |trace| && j < n && k < n
    ensures |trace[t].loads| == n && Demand(trace[t], level, j) <= trace[t].loads[k] + c + Excess(j, c)
  {
    hide IsRun, PickedBy, Excess;
    SameSize(trace, moves, n, level, c);
    LoadWithinDemand(trace, moves, n, level, c, t, k);
    ExcessGrows(j, j + 1, c);
    if PickedBy(trace[t], j) != {} {
      PickersAreSettled(trace[t], j);
      var last := Latest(trace[t], PickedBy(trace[t], j));
      PicksAreFew(trace, moves, n, level, c, t, j, last);
      AlwaysNear(trace, moves, n, level, c, t);
      assert Near(trace, n, c, t, last);
    }
  }

  /**
   * Even with every load read separately, n backends that start level never drift further apart than
   * c + (n - 2)(c - 2), or c if that is more: the number in flight for two backends or for two requests.
   */
  lemma {:induction false} ScanSkewIsBounded(
    trace: seq<Pool>, moves: seq<Move>, n: nat, level: int, c: nat, t: nat, a: nat, b: nat)
    requires IsRun(trace, moves, n, level, c) && t < |trace| && a < n && b < n
    ensures |trace[t].loads| == n
    ensures trace[t].loads[a] - trace[t].loads[b] <= c + if n <= 2 || c <= 2 then 0 else (n - 2) * (c - 2)
  {
    hide IsRun, Demand;
    DemandIsBounded(trace, moves, n, level, c, t, a, b);
    LoadWithinDemand(trace, moves, n, level, c, t, a);
    if a < n - 1 {
      ExcessGrows(a, n - 1, c);
    }
  }

  // ------------------------------------------ three requests among three backends

  /** The later of two moments. */
  function Later(s: nat, t: nat): nat
  {
    if s < t then t else s
  }

  /** A load that has grown was landed on by someone who was in flight until then. */
  lemma {:induction false} Lander(
    trace: seq<Pool>, moves: seq<Move>, n: nat, level: int, c: nat, s: nat, t: nat, b: nat)
    returns (v: nat, e: nat)
    requires IsRun(trace, moves, n, level, c) && s <= t < |trace| && b < n
    requires forall u :: 0 <= u < |trace| ==> |trace[u].loads| == n
    requires trace[s].loads[b] < trace[t].loads[b]
    ensures s <= v < t && e in InFlight(trace[v]) && e in CountedAt(trace[t], b)
    decreases t
  {
    MoveAt(trace, moves, n, level, c, t - 1);
    hide IsRun;
    if trace[s].loads[b] < trace[t - 1].loads[b] {
      v, e := Lander(trace, moves, n, level, c, s, t - 1, b);
      StaysOnRecord(trace, moves, n, level, c, t - 1, t, e);
    } else {
      LoadsGrow(trace, moves, n, level, c, s, t - 1, b);
      v, e := t - 1, moves[t - 1].r;
    }
  }

  /**
   * Three backends, three in flight, backend 2 against backend 0: a takeover from 1 that left 0
   * behind would need three others in flight on 1 besides the one taking over.
   */
  lemma {:induction false} FirstAgainstLast(trace: seq<Pool>, moves: seq<Move>, level: int, t: nat, r: nat)
    requires IsRun(trace, moves, 3, level, 3) && t < |trace|
    requires forall u :: 0 <= u < |trace| ==> |trace[u].loads| == 3
    requires r in PickedBy(trace[t], 2)
    ensures trace[t].requests[r].since <= t
    ensures trace[trace[t].requests[r].since].loads[2] <= trace[t].loads[0]
  {
    hide IsRun;
    AlwaysJustified(trace, moves, 3, level, 3, t, r);
    var u, mark := trace[t].requests[r].since, trace[t].loads[0];
    if trace[u].loads[2] > mark {
      var v := Turn(trace, moves, 3, level, 3, t, r);
      LoadsGrow(trace, moves, 3, level, 3, v, t, 0);
      AlwaysJustified(trace, moves, 3, level, 3, v, r);
      forall z | z in CountedAt(trace[v], 1)
        ensures trace[v].requests[z].since <= v && trace[trace[v].requests[z].since].loads[1] <= mark - 1
      {
        AlwaysJustified(trace, moves, 3, level, 3, v, z);
      }
      var s := trace[v].requests[r];
      assert s.best == 1 && trace[s.since].loads[1] <= mark - 1;
      LoadWithinDemand(trace, moves, 3, level, 3, s.since, 1);
      var w := InFlightTogether(trace, moves, 3, level, 3, v, 1, mark - 1);
      StillInFlight(trace, moves, 3, level, 3, s.since, w, v, r);
      OneMore(Landed(trace, w, v, 1), r, InFlight(trace[w]));
      InFlightIsFew(trace, moves, 3, level, 3, w);
      assert false;
    }
  }

  /**
   * Backend 2 against backend 1, where the last to settle on 2 saw it above the present load of 1.
   * It took over from 0 while two others, both in flight beside it at moment w, ran 0 up by two.
   */
  lemma {:induction false} RunUp(trace: seq<Pool>, moves: seq<Move>, level: int, t: nat, r: nat)
    returns (w: nat, pair: set<nat>)
    requires IsRun(trace, moves, 3, level, 3) && t < |trace|
    requires forall u :: 0 <= u < |trace| ==> |trace[u].loads| == 3
    requires r in PickedBy(trace[t], 2) && trace[t].requests[r].since <= t
    requires trace[trace[t].requests[r].since].loads[2] > trace[t].loads[1]
    ensures trace[trace[t].requests[r].since].loads[2] == trace[t].loads[1] + 1
    ensures w < t && trace[w].loads[0] <= trace[t].loads[1]
    ensures forall u :: w < u < |trace| ==> trace[u].loads[0] > trace[t].loads[1]
    ensures InFlight(trace[w]) == pair + {r} && r !in pair && |pair| == 2
    ensures pair <= CountedAt(trace[t], 0)
  {
    hide IsRun;
    var mark := trace[t].loads[1];
    var v := Turn(trace, moves, 3, level, 3, t, r);
    var s := trace[v].requests[r];
    LoadsGrow(trace, moves, 3, level, 3, v, t, 1);
    AlwaysJustified(trace, moves, 3, level, 3, v, r);
    forall z | z in CountedAt(trace[v], 0)
      ensures trace[v].requests[z].since <= v && trace[trace[v].requests[z].since].loads[0] <= mark
    {
      AlwaysJustified(trace, moves, 3, level, 3, v, z);
    }
    LoadWithinDemand(trace, moves, 3, level, 3, t, 1);
    w := InFlightTogether(trace, moves, 3, level, 3, v, 0, mark);
    pair := Landed(trace, w, v, 0);
    StillInFlight(trace, moves, 3, level, 3, s.since, w, v, r);
    OneMore(pair, r, InFlight(trace[w]));
    InFlightIsFew(trace, moves, 3, level, 3, w);
    SameSet(pair + {r}, InFlight(trace[w]));
    forall z | z in pair ensures z in CountedAt(trace[t], 0) {
      StaysOnRecord(trace, moves, 3, level, 3, v, t, z);
    }
    forall x | w < x < |trace| ensures trace[x].loads[0] > mark {
      if x > v {
        LoadsGrow(trace, moves, 3, level, 3, v, x, 0);
      }
    }
  }

  lemma {:induction false} SameSet<T>(a: set<T>, b: set<T>)
    requires a <= b && |b| <= |a|
    ensures a == b
  {
    var rest := b - a;
    if rest != {} {
      var x :| x in rest;
      OneMore(a, x, b);
    }
    assert b == a + rest;
  }

  /** If demand at j is c above the load that the last to settle there saw, all c in flight then settled there. */
  lemma {:induction false} AllSettle(
    trace: seq<Pool>, moves: seq<Move>, n: nat, level: int, c: nat, t: nat, j: nat, last: nat)
    requires IsRun(trace, moves, n, level, c) && t < |trace| && j < n
    requires forall u :: 0 <= u < |trace| ==> |trace[u].loads| == n
    requires last in PickedBy(trace[t], j)
    requires forall x :: x in PickedBy(trace[t], j) ==> trace[t].requests[x].since <= trace[t].requests[last].since
    requires trace[t].requests[last].since <= t
    requires Demand(trace[t], level, j) >= trace[trace[t].requests[last].since].loads[j] + c
    ensures var u := trace[t].requests[last].since;
            && InFlight(trace[u]) <= PickedBy(trace[t], j) && |InFlight(trace[u])| == c && last in InFlight(trace[u])
  {
    PicksAreFew(trace, moves, n, level, c, t, j, last);
    AlwaysJustified(trace, moves, n, level, c, t, last);
    hide IsRun;
    var u := trace[t].requests[last].since;
    InFlightIsFew(trace, moves, n, level, c, u);
    LoadIsCount(trace, moves, n, level, c, u, j);
    SameSet(PickedBy(trace[t], j), CountedAt(trace[u], j) + InFlight(trace[u]));
  }

  /**
   * What demand of four above backend 1 would take: r saw 2 one above 1, took over from 0 after the
   * others at moment w had run 0 up, and both others in flight when r looked at 2 settle there too.
   */
  ghost predicate Plot(trace: seq<Pool>, t: nat, r: nat, u: nat, w: nat)
    requires t < |trace| && (forall u :: 0 <= u < |trace| ==> |trace[u].loads| == 3)
  {
    && u <= t && w < t
    && trace[u].loads[2] == trace[t].loads[1] + 1
    && (forall x :: w < x < |trace| ==> trace[x].loads[0] > trace[t].loads[1])
    && trace[w].loads[0] <= trace[t].loads[1]
    && r in InFlight(trace[w]) && r in InFlight(trace[u]) && |InFlight(trace[u])| == 3
    && (forall a :: a in InFlight(trace[u]) && a != r ==>
          && a in PickedBy(trace[t], 2) && a !in InFlight(trace[w])
          && trace[t].requests[a].since <= u)
  }

  lemma {:induction false} OthersSawLess(
    trace: seq<Pool>, moves: seq<Move>, level: int, t: nat, r: nat, u: nat, w: nat, a: nat)
    requires IsRun(trace, moves, 3, level, 3) && t < |trace|
    requires forall u :: 0 <= u < |trace| ==> |trace[u].loads| == 3
    requires Plot(trace, t, r, u, w) && a in InFlight(trace[u]) && a != r
    ensures a in trace[t].requests && trace[t].requests[a].since <= u
    ensures a in trace[trace[t].requests[a].since].requests
    ensures trace[trace[t].requests[a].since].loads[2] < trace[t].loads[1]
  {
    hide IsRun;
    AlwaysJustified(trace, moves, 3, level, 3, t, a);
    if u <= w {
      StaysOnRecord(trace, moves, 3, level, 3, u, w, a);
      StaysOnRecord(trace, moves, 3, level, 3, w, t, a);
      AlwaysJustified(trace, moves, 3, level, 3, w, a);
      LoadsGrow(trace, moves, 3, level, 3, w, t, 1);
    } else {
      var v := Turn(trace, moves, 3, level, 3, t, a);
      var s := trace[v].requests[a];
      AlwaysJustified(trace, moves, 3, level, 3, v, a);
      LoadsGrow(trace, moves, 3, level, 3, v, t, 1);
      if s.best == 0 {
        assert trace[s.since].loads[0] <= trace[t].loads[1];
        StillInFlight(trace, moves, 3, level, 3, s.since, w, u, a);
      }
    }
  }

  /** If r looked at 2 only after the run-up, nobody else was in flight to raise 2 to what r saw. */
  lemma {:induction false} NoLatePlot(trace: seq<Pool>, moves: seq<Move>, level: int, t: nat, r: nat, u: nat, w: nat)
    requires IsRun(trace, moves, 3, level, 3) && t < |trace|
    requires forall u :: 0 <= u < |trace| ==> |trace[u].loads| == 3
    ensures !(Plot(trace, t, r, u, w) && w < u)
  {
    hide IsRun;
    if Plot(trace, t, r, u, w) && w < u {
      var a, b := TwoOthers(InFlight(trace[u]), r);
      OthersSawLess(trace, moves, level, t, r, u, w, a);
      OthersSawLess(trace, moves, level, t, r, u, w, b);
      var s := Later(trace[t].requests[a].since, trace[t].requests[b].since);
      if s <= w {
        StillInFlight(trace, moves, 3, level, 3, trace[t].requests[a].since, w, u, a);
      }
      var v, e := Lander(trace, moves, 3, level, 3, s, u, 2);
      StillInFlight(trace, moves, 3, level, 3, trace[t].requests[a].since, v, u, a);
      StillInFlight(trace, moves, 3, level, 3, trace[t].requests[b].since, v, u, b);
      StillInFlight(trace, moves, 3, level, 3, w, v, u, r);
      Fewer({a, b, r, e}, InFlight(trace[v]));
      InFlightIsFew(trace, moves, 3, level, 3, v);
      assert false;
    }
  }

  lemma {:induction false} TwoOthers(s: set<nat>, r: nat) returns (a: nat, b: nat)
    requires r in s && |s| == 3
    ensures a in s && b in s && a != b && a != r && b != r
  {
    assert |s - {r}| == 2;
    a := Any(s - {r});
    assert |s - {r} - {a}| == 1;
    b := Any(s - {r} - {a});
  }

  /** Whoever was counted at 2 had seen it below 0 or 1. */
  lemma {:induction false} EarlyPickersSawLess(trace: seq<Pool>, moves: seq<Move>, level: int, u: nat, mark: int)
    requires IsRun(trace, moves, 3, level, 3) && u < |trace|
    requires forall x :: 0 <= x < |trace| ==> |trace[x].loads| == 3
    requires trace[u].loads[0] <= mark + 1 && trace[u].loads[1] <= mark + 1
    ensures forall z :: z in CountedAt(trace[u], 2) ==>
              trace[u].requests[z].since <= u && trace[trace[u].requests[z].since].loads[2] <= mark
  {
    hide IsRun;
    forall z | z in CountedAt(trace[u], 2)
      ensures trace[u].requests[z].since <= u && trace[trace[u].requests[z].since].loads[2] <= mark
    {
      AlwaysJustified(trace, moves, 3, level, 3, u, z);
    }
  }

  /** Two in flight that first read 2 at the mark or below leave no room for two more to be counted there. */
  lemma {:induction false} NoRoomForTwoMore(
    trace: seq<Pool>, moves: seq<Move>, level: int, u: nat, mark: int, a: nat, b: nat, seenA: nat, seenB: nat)
    requires IsRun(trace, moves, 3, level, 3) && u < |trace| && level <= mark
    requires forall x :: 0 <= x < |trace| ==> |trace[x].loads| == 3
    requires trace[u].loads[0] <= mark + 1 && trace[u].loads[1] <= mark + 1
    requires a in InFlight(trace[u]) && b in InFlight(trace[u]) && a != b
    requires seenA <= u && a in trace[seenA].requests && trace[seenA].loads[2] <= mark
    requires seenB <= u && b in trace[seenB].requests && trace[seenB].loads[2] <= mark
    ensures trace[u].loads[2] <= mark + 1
  {
    hide IsRun;
    EarlyPickersSawLess(trace, moves, level, u, mark);
    if trace[u].loads[2] > mark {
      var x := InFlightTogether(trace, moves, 3, level, 3, u, 2, mark);
      StillInFlight(trace, moves, 3, level, 3, seenA, x, u, a);
      StillInFlight(trace, moves, 3, level, 3, seenB, x, u, b);
      OneMore(Landed(trace, x, u, 2) + {a}, b, InFlight(trace[x]));
      InFlightIsFew(trace, moves, 3, level, 3, x);
    }
  }

  /** If r looked at 2 before the run-up, two more on 2 would have been in flight beside the two others. */
  lemma {:induction false} NoEarlyPlot(
    trace: seq<Pool>, moves: seq<Move>, level: int, t: nat, r: nat, u: nat, w: nat)
    requires IsRun(trace, moves, 3, level, 3) && t < |trace|
    requires forall u :: 0 <= u < |trace| ==> |trace[u].loads| == 3
    ensures !(Plot(trace, t, r, u, w) && u <= w)
  {
    hide IsRun;
    if Plot(trace, t, r, u, w) && u <= w {
      var a, b := TwoOthers(InFlight(trace[u]), r);
      OthersSawLess(trace, moves, level, t, r, u, w, a);
      OthersSawLess(trace, moves, level, t, r, u, w, b);
      var mark, seenA, seenB := trace[t].loads[1] - 1, trace[t].requests[a].since, trace[t].requests[b].since;
      LoadsGrow(trace, moves, 3, level, 3, u, w, 0);
      LoadsGrow(trace, moves, 3, level, 3, u, t, 1);
      LoadWithinDemand(trace, moves, 3, level, 3, seenA, 2);
      NoRoomForTwoMore(trace, moves, level, u, mark, a, b, seenA, seenB);
    }
  }

  lemma {:induction false} MiddleAgainstLast(trace: seq<Pool>, moves: seq<Move>, level: int, t: nat)
    requires IsRun(trace, moves, 3, level, 3) && t < |trace|
    requires forall u :: 0 <= u < |trace| ==> |trace[u].loads| == 3
    ensures Demand(trace[t], level, 2) <= trace[t].loads[1] + 3
  {
    hide IsRun, PickedBy;
    LoadWithinDemand(trace, moves, 3, level, 3, t, 1);
    if PickedBy(trace[t], 2) != {} && Demand(trace[t], level, 2) > trace[t].loads[1] + 3 {
      PickersAreSettled(trace[t], 2);
      var r := Latest(trace[t], PickedBy(trace[t], 2));
      PicksAreFew(trace, moves, 3, level, 3, t, 2, r);
      var u := trace[t].requests[r].since;
      var w, pair := RunUp(trace, moves, level, t, r);
      AllSettle(trace, moves, 3, level, 3, t, 2, r);
      assert Plot(trace, t, r, u, w);
      NoLatePlot(trace, moves, level, t, r, u, w);
      NoEarlyPlot(trace, moves, level, t, r, u, w);
    }
  }

  lemma {:induction false} ThreeStayTight(trace: seq<Pool>, moves: seq<Move>, level: int, t: nat, j: nat, k: nat)
    requires IsRun(trace, moves, 3, level, 3) && t < |trace| && j < 3 && k < 3
    ensures |trace[t].loads| == 3 && Demand(trace[t], level, j) <= trace[t].loads[k] + 3
  {
    hide IsRun, PickedBy;
    SameSize(trace, moves, 3, level, 3);
    DemandIsBounded(trace, moves, 3, level, 3, t, j, k);
    LoadWithinDemand(trace, moves, 3, level, 3, t, k);
    if j == 2 && k == 1 {
      MiddleAgainstLast(trace, moves, level, t);
    } else if j == 2 && PickedBy(trace[t], 2) != {} {
      PickersAreSettled(trace[t], 2);
      var r := Latest(trace[t], PickedBy(trace[t], 2));
      PicksAreFew(trace, moves, 3, level, 3, t, 2, r);
      if k == 0 {
        FirstAgainstLast(trace, moves, level, t, r);
      } else {
        LoadsGrow(trace, moves, 3, level, 3, trace[t].requests[r].since, t, 2);
      }
    }
  }
}
