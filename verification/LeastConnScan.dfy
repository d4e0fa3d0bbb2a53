/**
 * Least connections, read by read. Nothing locks the loads while Next scans them: each load is read
 * by itself, the best one again for every comparison, and other requests may be counted in between.
 * Loads only grow here (arrivals, no departures). A bound still holds, but in general it is no longer
 * the number of requests in flight.
 */
module LeastConnScan {
  import opened Collections

  /**
   * Where a request is in its scan. `best` is the candidate so far and `since` the moment its load
   * was first looked at, which for the initial candidate is when the scan began.
   */
  datatype Look =
    | Fetching(best: nat, since: nat, i: nat)                       // about to read candidate i
    | Comparing(best: nat, since: nat, i: nat, seen: int, at: nat)  // read i at moment `at`; about to read best again
    | Chosen(best: nat, since: nat)
    | Counted(best: nat, since: nat)
    | Refused

  datatype Pool = Pool(loads: seq<int>, requests: map<nat, Look>)

  datatype Move = Begin(r: nat) | Fetch(r: nat) | Compare(r: nat) | Count(r: nat) | Refuse(r: nat)

  ghost predicate Enabled(p: Pool, m: Move)
  {
    match m
    case Begin(r) => r !in p.requests && |p.loads| > 0
    case Fetch(r) => r in p.requests && p.requests[r].Fetching? && p.requests[r].i < |p.loads|
    case Compare(r) => r in p.requests && p.requests[r].Comparing? && p.requests[r].best < |p.loads|
    case Count(r) => r in p.requests && p.requests[r].Chosen? && p.requests[r].best < |p.loads|
    case Refuse(r) => r in p.requests && p.requests[r].Chosen?
  }

  function Onward(n: nat, best: nat, since: nat, i: nat): Look
  {
    if i < n then Fetching(best, since, i) else Chosen(best, since)
  }

  /** The move made at moment t, leading to moment t + 1. */
  function Step(p: Pool, m: Move, t: nat): Pool
    requires Enabled(p, m)
  {
    var n := |p.loads|;
    match m
    case Begin(r) => p.(requests := p.requests[r := Onward(n, 0, t + 1, 1)])
    case Fetch(r) =>
      var s := p.requests[r];
      p.(requests := p.requests[r := Comparing(s.best, s.since, s.i, p.loads[s.i], t + 1)])
    case Compare(r) =>
      var s := p.requests[r];
      p.(requests := p.requests[r :=
        if s.seen < p.loads[s.best] then Onward(n, s.i, s.at, s.i + 1) else Onward(n, s.best, s.since, s.i + 1)])
    case Count(r) =>
      var s := p.requests[r];
      Pool(p.loads[s.best := p.loads[s.best] + 1], p.requests[r := Counted(s.best, s.since)])
    case Refuse(r) => p.(requests := p.requests[r := Refused])
  }

  predicate Busy(s: Look)
  {
    s.Fetching? || s.Comparing? || s.Chosen?
  }

  function InFlight(p: Pool): set<nat>
  {
    set r | r in p.requests && Busy(p.requests[r])
  }

  function CountedAt(p: Pool, j: nat): set<nat>
  {
    set r | r in p.requests && p.requests[r].Counted? && p.requests[r].best == j
  }

  /** Everyone who has settled on j, counted yet or not. */
  function PickedBy(p: Pool, j: nat): set<nat>
  {
    set r | r in p.requests && (p.requests[r].Counted? || p.requests[r].Chosen?) && p.requests[r].best == j
  }

  /** A run from n backends of one load, with at most c requests ever between begin and count. */
  ghost predicate IsRun(trace: seq<Pool>, moves: seq<Move>, n: nat, level: int, c: nat)
  {
    && |trace| == |moves| + 1
    && |trace[0].loads| == n && (forall j :: 0 <= j < n ==> trace[0].loads[j] == level) && trace[0].requests == map[]
    && (forall t :: 0 <= t < |trace| ==> |InFlight(trace[t])| <= c)
    && forall t :: 0 <= t < |moves| ==> Enabled(trace[t], moves[t]) && trace[t + 1] == Step(trace[t], moves[t], t)
  }

  // ------------------------------------------------------------ loads and counts

  lemma {:induction false} StepCounts(p: Pool, m: Move, t: nat, j: nat)
    requires Enabled(p, m) && j < |p.loads|
    ensures |Step(p, m, t).loads| == |p.loads|
    ensures Step(p, m, t).loads[j] - p.loads[j] == |CountedAt(Step(p, m, t), j)| - |CountedAt(p, j)| >= 0
  {
    hide Step, Enabled, CountedAt;
    StepCounted(p, m, t, j);
    if m.Count? && p.requests[m.r].best == j {
      assert |CountedAt(p, j) + {m.r}| == |CountedAt(p, j)| + 1;
    }
  }

  lemma {:induction false} StepCounted(p: Pool, m: Move, t: nat, j: nat)
    requires Enabled(p, m) && j < |p.loads|
    ensures var here := m.Count? && m.r in p.requests && p.requests[m.r].Chosen? && p.requests[m.r].best == j;
            && |Step(p, m, t).loads| == |p.loads|
            && Step(p, m, t).loads[j] == p.loads[j] + (if here then 1 else 0)
            && CountedAt(Step(p, m, t), j) == CountedAt(p, j) + (if here then {m.r} else {})
            && (here ==> m.r !in CountedAt(p, j))
    ensures m.Count? ==> m.r in p.requests && p.requests[m.r].Chosen?
  {
  }

  /** A load is the initial level plus the requests counted there. */
  lemma {:induction false} LoadIsCount(trace: seq<Pool>, moves: seq<Move>, n: nat, level: int, c: nat, t: nat, j: nat)
    requires IsRun(trace, moves, n, level, c) && t < |trace| && j < n
    ensures |trace[t].loads| == n && trace[t].loads[j] == level + |CountedAt(trace[t], j)|
    decreases t
  {
    hide Step, Enabled;
    if t == 0 {
      assert CountedAt(trace[0], j) == {};
    } else {
      LoadIsCount(trace, moves, n, level, c, t - 1, j);
      StepCounts(trace[t - 1], moves[t - 1], t - 1, j);
    }
  }

  lemma {:induction false} LoadsGrow(
    trace: seq<Pool>, moves: seq<Move>, n: nat, level: int, c: nat, s: nat, t: nat, j: nat)
    requires IsRun(trace, moves, n, level, c) && s <= t < |trace| && j < n
    ensures |trace[s].loads| == n && |trace[t].loads| == n && trace[s].loads[j] <= trace[t].loads[j]
    decreases t
  {
    hide Step, Enabled;
    LoadIsCount(trace, moves, n, level, c, s, j);
    if s < t {
      LoadsGrow(trace, moves, n, level, c, s, t - 1, j);
      StepCounts(trace[t - 1], moves[t - 1], t - 1, j);
    }
  }

  /** A request never leaves the record, and once counted stays counted where it is. */
  lemma {:induction false} StaysOnRecord(
    trace: seq<Pool>, moves: seq<Move>, n: nat, level: int, c: nat, s: nat, t: nat, r: nat)
    requires IsRun(trace, moves, n, level, c) && s <= t < |trace| && r in trace[s].requests
    ensures r in trace[t].requests
    ensures trace[s].requests[r].Counted? || trace[s].requests[r].Refused? ==>
              trace[t].requests[r] == trace[s].requests[r]
    decreases t
  {
    if s < t {
      StaysOnRecord(trace, moves, n, level, c, s, t - 1, r);
      assert Enabled(trace[t - 1], moves[t - 1]) && trace[t] == Step(trace[t - 1], moves[t - 1], t - 1);
    }
  }

  // -------------------------------------------------- what a finished scan knows

  /** How far the scan has compared. */
  function Reach(s: Look, n: nat): nat
  {
    if s.Fetching? || s.Comparing? then s.i else n
  }

  /**
   * When its load was first read, the candidate was at most as loaded as every later backend
   * compared since is now, and, unless it is the first, less loaded than some earlier one is now.
   */
  ghost predicate Justified(trace: seq<Pool>, n: nat, t: nat, r: nat)
    requires t < |trace| && (forall u :: 0 <= u < |trace| ==> |trace[u].loads| == n)
  {
    r in trace[t].requests && !trace[t].requests[r].Refused? ==>
      var s := trace[t].requests[r];
      && s.best < Reach(s, n) <= n && s.since <= t
      && r in trace[s.since].requests && Busy(trace[s.since].requests[r])
      && (forall k :: s.best < k < Reach(s, n) ==> trace[s.since].loads[s.best] <= trace[t].loads[k])
      && (s.best > 0 ==> exists q :: 0 <= q < s.best && trace[s.since].loads[s.best] < trace[t].loads[q])
      && (s.Comparing? ==>
            && s.i < n && s.at <= t
            && r in trace[s.at].requests && Busy(trace[s.at].requests[r])
            && s.seen == trace[s.at].loads[s.i])
  }

  lemma {:induction false} SameSize(trace: seq<Pool>, moves: seq<Move>, n: nat, level: int, c: nat)
    requires IsRun(trace, moves, n, level, c) && n > 0
    ensures forall t :: 0 <= t < |trace| ==> |trace[t].loads| == n
  {
    forall t | 0 <= t < |trace| ensures |trace[t].loads| == n {
      LoadIsCount(trace, moves, n, level, c, t, 0);
    }
  }

  /** A request that does not move keeps its justification: loads only grow. */
  lemma {:induction false} StillJustified(
    trace: seq<Pool>, moves: seq<Move>, n: nat, level: int, c: nat, t: nat, r: nat)
    requires IsRun(trace, moves, n, level, c) && t + 1 < |trace|
    requires forall u :: 0 <= u < |trace| ==> |trace[u].loads| == n
    requires Justified(trace, n, t, r) && r in trace[t].requests
    requires r in trace[t + 1].requests && trace[t + 1].requests[r] == trace[t].requests[r]
    ensures Justified(trace, n, t + 1, r)
  {
    hide IsRun;
    forall k | 0 <= k < n ensures trace[t].loads[k] <= trace[t + 1].loads[k] {
      LoadsGrow(trace, moves, n, level, c, t, t + 1, k);
    }
    var s := trace[t].requests[r];
    if !s.Refused? {
      forall k {:trigger trace[t + 1].loads[k]} | s.best < k < Reach(s, n)
        ensures trace[s.since].loads[s.best] <= trace[t + 1].loads[k]
      {
        assert trace[t].loads[k] <= trace[t + 1].loads[k];
      }
    }
    if !s.Refused? && s.best > 0 {
      var q :| 0 <= q < s.best && trace[s.since].loads[s.best] < trace[t].loads[q];
      assert trace[s.since].loads[s.best] < trace[t + 1].loads[q];
    }
  }

  /** A comparison keeps the justification, whichever of the two it settles for. */
  lemma {:induction false} CompareJustified(
    trace: seq<Pool>, moves: seq<Move>, n: nat, level: int, c: nat, t: nat, r: nat)
    requires IsRun(trace, moves, n, level, c) && t + 1 < |trace|
    requires forall u :: 0 <= u < |trace| ==> |trace[u].loads| == n
    requires Justified(trace, n, t, r) && moves[t] == Compare(r)
    ensures Justified(trace, n, t + 1, r)
  {
    assert Enabled(trace[t], moves[t]) && trace[t + 1] == Step(trace[t], moves[t], t);
    hide IsRun;
    forall k | 0 <= k < n ensures trace[t].loads[k] <= trace[t + 1].loads[k] {
      LoadsGrow(trace, moves, n, level, c, t, t + 1, k);
    }
    var s, s' := trace[t].requests[r], trace[t + 1].requests[r];
    LoadsGrow(trace, moves, n, level, c, s.at, t, s.i);
    LoadsGrow(trace, moves, n, level, c, s.since, t, s.best);
    if s.seen < trace[t].loads[s.best] {
      assert trace[s'.since].loads[s'.best] < trace[t + 1].loads[s.best];
    }
  }

  lemma {:induction false} MoverJustified(
    trace: seq<Pool>, moves: seq<Move>, n: nat, level: int, c: nat, t: nat, r: nat)
    requires IsRun(trace, moves, n, level, c) && t + 1 < |trace|
    requires forall u :: 0 <= u < |trace| ==> |trace[u].loads| == n
    requires Justified(trace, n, t, r) && moves[t].r == r && !moves[t].Compare?
    ensures Justified(trace, n, t + 1, r)
  {
    assert Enabled(trace[t], moves[t]) && trace[t + 1] == Step(trace[t], moves[t], t);
    hide IsRun;
    forall k | 0 <= k < n ensures trace[t].loads[k] <= trace[t + 1].loads[k] {
      LoadsGrow(trace, moves, n, level, c, t, t + 1, k);
    }
  }

  lemma {:induction false} AlwaysJustified(
    trace: seq<Pool>, moves: seq<Move>, n: nat, level: int, c: nat, t: nat, r: nat)
    requires IsRun(trace, moves, n, level, c) && t < |trace|
    requires forall u :: 0 <= u < |trace| ==> |trace[u].loads| == n
    ensures Justified(trace, n, t, r)
    decreases t
  {
    if t > 0 {
      AlwaysJustified(trace, moves, n, level, c, t - 1, r);
      if moves[t - 1].r != r {
        OthersStay(trace[t - 1], moves[t - 1], t - 1, r);
        if r in trace[t - 1].requests {
          StillJustified(trace, moves, n, level, c, t - 1, r);
        }
      } else if moves[t - 1].Compare? {
        CompareJustified(trace, moves, n, level, c, t - 1, r);
      } else {
        MoverJustified(trace, moves, n, level, c, t - 1, r);
      }
    }
  }

  lemma {:induction false} OthersStay(p: Pool, m: Move, t: nat, r: nat)
    requires Enabled(p, m) && m.r != r
    ensures r in Step(p, m, t).requests <==> r in p.requests
    ensures r in p.requests ==> Step(p, m, t).requests[r] == p.requests[r]
  {
  }

  // --------------------------------------------------- everyone who settles on one

  /** Of a non-empty set of settled requests, one whose candidate was looked at last. */
  lemma {:induction false} Latest(p: Pool, rs: set<nat>) returns (r: nat)
    requires rs != {}
    requires forall x :: x in rs ==> x in p.requests && (p.requests[x].Counted? || p.requests[x].Chosen?)
    ensures r in rs && forall x :: x in rs ==> p.requests[x].since <= p.requests[r].since
    decreases |rs|
  {
    var first := Any(rs);
    var rest := rs - {first};
    r := first;
    if rest != {} {
      var q := Latest(p, rest);
      if p.requests[q].since > p.requests[first].since {
        r := q;
      }
    }
    forall x | x in rs ensures p.requests[x].since <= p.requests[r].since {
      assert x == first || x in rest;
    }
  }

  /**
   * Everyone who has settled on j was, when the last of them first looked at it, either counted
   * there already or among the at most c in flight.
   */
  lemma {:induction false} PicksAreFew(
    trace: seq<Pool>, moves: seq<Move>, n: nat, level: int, c: nat, t: nat, j: nat, last: nat)
    requires IsRun(trace, moves, n, level, c) && t < |trace| && j < n
    requires forall u :: 0 <= u < |trace| ==> |trace[u].loads| == n
    requires last in PickedBy(trace[t], j)
    requires forall x :: x in PickedBy(trace[t], j) ==> trace[t].requests[x].since <= trace[t].requests[last].since
    ensures trace[t].requests[last].since <= t
    ensures var u := trace[t].requests[last].since; PickedBy(trace[t], j) <= CountedAt(trace[u], j) + InFlight(trace[u])
    ensures level + |PickedBy(trace[t], j)| <= trace[trace[t].requests[last].since].loads[j] + c
  {
    AlwaysJustified(trace, moves, n, level, c, t, last);
    var u := trace[t].requests[last].since;
    var there := CountedAt(trace[u], j) + InFlight(trace[u]);
    forall x | x in PickedBy(trace[t], j) ensures x in there {
      AlwaysJustified(trace, moves, n, level, c, t, x);
      StaysOnRecord(trace, moves, n, level, c, trace[t].requests[x].since, u, x);
      StaysOnRecord(trace, moves, n, level, c, u, t, x);
    }
    Fewer(PickedBy(trace[t], j), there);
    assert |there| <= |CountedAt(trace[u], j)| + |InFlight(trace[u])|;
    LoadIsCount(trace, moves, n, level, c, u, j);
  }

  /** The load at j with everyone who has settled on it. */
  function Demand(p: Pool, level: int, j: nat): int
  {
    level + |PickedBy(p, j)|
  }

  lemma {:induction false} LoadWithinDemand(
    trace: seq<Pool>, moves: seq<Move>, n: nat, level: int, c: nat, t: nat, j: nat)
    requires IsRun(trace, moves, n, level, c) && t < |trace| && j < n
    ensures |trace[t].loads| == n && level <= trace[t].loads[j] <= Demand(trace[t], level, j)
  {
    LoadIsCount(trace, moves, n, level, c, t, j);
    Fewer(CountedAt(trace[t], j), PickedBy(trace[t], j));
  }

  lemma {:induction false} PickersAreSettled(p: Pool, j: nat)
    ensures forall x :: x in PickedBy(p, j) ==>
              x in p.requests && (p.requests[x].Counted? || p.requests[x].Chosen?) && p.requests[x].best == j
  {
  }
}
