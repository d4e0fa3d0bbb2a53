/**
 * Least connections. A request first picks a backend and only later counts itself there, so
 * several requests may act on the same stale loads; the model keeps the two steps apart.
 */
module LeastConnections {
  import opened Backends
  import opened Sums

  /** The scan for the smallest load among the first n; a later one must be strictly smaller. */
  function FirstMin(loads: seq<int>, n: nat): (b: nat)
    requires 1 <= n <= |loads|
    ensures b < n
  {
    if n == 1 then 0
    else
      var b := FirstMin(loads, n - 1);
      if loads[n - 1] < loads[b] then n - 1 else b
  }

  lemma {:induction false} FirstMinStart(loads: seq<int>)
    requires loads != []
    ensures FirstMin(loads, 1) == 0
  {
  }

  lemma {:induction false} FirstMinNext(loads: seq<int>, i: nat)
    requires 1 <= i < |loads|
    ensures FirstMin(loads, i + 1) == if loads[i] < loads[FirstMin(loads, i)] then i else FirstMin(loads, i)
  {
  }

  lemma {:induction false} FirstMinIsFirst(loads: seq<int>, n: nat)
    requires 1 <= n <= |loads|
    ensures FirstLeast(loads, n, FirstMin(loads, n))
    decreases n
  {
    if n > 1 {
      FirstMinIsFirst(loads, n - 1);
    }
  }

  ghost function Loads(bs: seq<Backend>): (ls: seq<int>)
    reads bs
    ensures |ls| == |bs| && forall i :: 0 <= i < |ls| ==> ls[i] == bs[i].inflight
  {
    seq(|bs|, i requires 0 <= i < |bs| reads bs => bs[i].inflight)
  }

  /** Alive, and the first with the fewest requests in flight among the alive ones. */
  ghost predicate IsLeastLoaded(bs: seq<Backend>, i: nat)
    requires i < |bs|
    reads bs
  {
    && bs[i].alive
    && (forall k :: 0 <= k < |bs| && bs[k].alive ==> bs[i].inflight <= bs[k].inflight)
    && forall k :: 0 <= k < i && bs[k].alive ==> bs[i].inflight < bs[k].inflight
  }

  /** The first least among the healthy is, in the configured order, the first least among all alive. */
  lemma {:induction false} LeastOfAlive(bs: seq<Backend>)
    requires Alive(bs) != []
    ensures var b := FirstMin(Loads(Alive(bs)), |Alive(bs)|);
            IsLeastLoaded(bs, AliveAt(bs)[b]) && Alive(bs)[b] == bs[AliveAt(bs)[b]]
  {
    hide FirstMin;
    var alive, loads, ps := Alive(bs), Loads(Alive(bs)), AliveAt(bs);
    var b := FirstMin(loads, |alive|);
    FirstMinIsFirst(loads, |alive|);
    forall k | 0 <= k < |bs| && bs[k].alive
      ensures bs[ps[b]].inflight <= bs[k].inflight
      ensures k < ps[b] ==> bs[ps[b]].inflight < bs[k].inflight
    {
      var j := NoneMissing(bs, k);
      assert loads[j] == bs[k].inflight && loads[b] == bs[ps[b]].inflight;
    }
  }

  class LeastConn {
    var backends: seq<Backend>

    constructor (bs: seq<Backend>)
      ensures backends == bs
    {
      backends := bs;
    }

    /** The scan over the healthy backends. */
    static method Scan(alive: seq<Backend>) returns (best: Backend)
      requires alive != []
      ensures best == alive[FirstMin(Loads(alive), |alive|)]
    {
      hide FirstMin;
      ghost var loads := Loads(alive);
      best := alive[0];
      FirstMinStart(loads);
      for i := 1 to |alive|
        invariant best == alive[FirstMin(loads, i)]
      {
        FirstMinNext(loads, i);
        if alive[i].inflight < best.inflight {
          best := alive[i];
        }
      }
    }

    method Next() returns (r: Backend?)
      ensures r == null <==> forall i :: 0 <= i < |backends| ==> !backends[i].alive
      ensures r != null ==> exists i :: 0 <= i < |backends| && IsLeastLoaded(backends, i) && r == backends[i]
    {
      hide FirstMin, IsLeastLoaded, AliveAt, Alive, Loads;
      var alive := Healthy(backends);
      if alive == [] {
        forall i | 0 <= i < |backends| ensures !backends[i].alive {
          HealthyIsAlive(backends, backends[i]);
        }
        return null;
      }
      r := Scan(alive);
      LeastOfAlive(backends);
      HealthyIsAlive(backends, r);
    }
  }

  // ------------------------------------------------------- picks racing with counts

  /** Loads of the alive backends, and how many requests have picked each but not counted yet. */
  datatype Fleet = Fleet(loads: seq<int>, pending: seq<int>)

  /** A request picks; a request that picked b counts itself; or it gives up (its breaker refused). */
  datatype Move = Choose | Count(b: nat) | GiveUp(b: nat)

  ghost predicate Sized(f: Fleet)
  {
    |f.loads| == |f.pending| > 0
  }

  ghost predicate Enabled(f: Fleet, m: Move)
    requires Sized(f)
  {
    m.Choose? || (m.b < |f.loads| && f.pending[m.b] > 0)
  }

  function Make(f: Fleet, m: Move): (f': Fleet)
    requires Sized(f) && Enabled(f, m)
    ensures Sized(f') && |f'.loads| == |f.loads|
  {
    match m
    case Choose =>
      var b := FirstMin(f.loads, |f.loads|);
      f.(pending := f.pending[b := f.pending[b] + 1])
    case Count(b) =>
      Fleet(f.loads[b := f.loads[b] + 1], f.pending[b := f.pending[b] - 1])
    case GiveUp(b) =>
      f.(pending := f.pending[b := f.pending[b] - 1])
  }

  /** `trace` records a run in which at most c requests are ever between picking and counting. */
  ghost predicate IsRun(trace: seq<Fleet>, moves: seq<Move>, c: int)
  {
    && |trace| == |moves| + 1
    && (forall i :: 0 <= i < |trace| ==> Sized(trace[i]) && Sum(trace[i].pending) <= c)
    && forall i :: 0 <= i < |moves| ==> Enabled(trace[i], moves[i]) && trace[i + 1] == Make(trace[i], moves[i])
  }

  /** Counting everyone who has picked b, b is still at most c above every other backend. */
  ghost predicate Balanced(f: Fleet, c: int)
    requires Sized(f)
  {
    && (forall b :: 0 <= b < |f.pending| ==> 0 <= f.pending[b])
    && forall a, b :: 0 <= a < |f.loads| && 0 <= b < |f.loads| ==> f.loads[b] + f.pending[b] - f.loads[a] <= c
  }

  lemma {:induction false} OneOfMany(s: seq<int>, i: nat)
    requires i < |s| && forall j :: 0 <= j < |s| ==> 0 <= s[j]
    ensures s[i] <= Sum(s)
  {
    SumZeros(Zeros(|s|));
    SumUpdate(Zeros(|s|), i, s[i]);
    SumDominates(Zeros(|s|)[i := s[i]], s);
  }

  lemma {:induction false} MoveKeepsBalance(f: Fleet, m: Move, c: int)
    requires Sized(f) && Enabled(f, m) && Balanced(f, c)
    requires Sum(Make(f, m).pending) <= c
    ensures Balanced(Make(f, m), c)
  {
    if m.Choose? {
      FirstMinIsFirst(f.loads, |f.loads|);
      OneOfMany(Make(f, m).pending, FirstMin(f.loads, |f.loads|));
    }
  }

  /** Every state of a run keeps the balance the run started with. */
  lemma {:induction false} RunKeepsBalance(trace: seq<Fleet>, moves: seq<Move>, c: int, i: nat)
    requires IsRun(trace, moves, c) && Balanced(trace[0], c) && i < |trace|
    ensures Balanced(trace[i], c)
    decreases i
  {
    if i > 0 {
      RunKeepsBalance(trace, moves, c, i - 1);
      assert trace[i] == Make(trace[i - 1], moves[i - 1]);
      MoveKeepsBalance(trace[i - 1], moves[i - 1], c);
    }
  }

  /**
   * From loads within c of each other and nobody in between, no interleaving of picks and counts
   * with at most c requests in between ever drives two alive backends more than c apart.
   */
  lemma {:induction false} SkewIsBounded(trace: seq<Fleet>, moves: seq<Move>, c: int, i: nat, a: nat, b: nat)
    requires IsRun(trace, moves, c) && i < |trace|
    requires forall x :: 0 <= x < |trace[0].pending| ==> trace[0].pending[x] == 0
    requires forall x, y :: 0 <= x < |trace[0].loads| && 0 <= y < |trace[0].loads| ==>
               trace[0].loads[x] - trace[0].loads[y] <= c
    requires a < |trace[i].loads| && b < |trace[i].loads|
    ensures -c <= trace[i].loads[a] - trace[i].loads[b] <= c
  {
    RunKeepsBalance(trace, moves, c, i);
    assert Balanced(trace[i], c);
  }

  // ------------------------------------------------------------- the bound is reached

  function Crowd(n: nat, level: int, picked: nat, counted: nat): (f: Fleet)
    requires n >= 1 && counted <= picked
    ensures Sized(f) && |f.loads| == n
  {
    Fleet(seq(n, i => if i == 0 then level + counted else level),
          seq(n, i => if i == 0 then picked - counted else 0))
  }

  /** c requests all pick before any counts, then all count: a run the code allows. */
  function CrowdTrace(n: nat, level: int, c: nat): (t: seq<Fleet>)
    requires n >= 1
    ensures |t| == 2 * c + 1
  {
    seq(2 * c + 1, i requires 0 <= i < 2 * c + 1 =>
      if i <= c then Crowd(n, level, i, 0) else Crowd(n, level, c, i - c))
  }

  function CrowdMoves(c: nat): (ms: seq<Move>)
    ensures |ms| == 2 * c
  {
    seq(2 * c, i requires 0 <= i < 2 * c => if i < c then Choose else Count(0))
  }

  lemma {:induction false} CrowdPending(n: nat, level: int, picked: nat, counted: nat)
    requires n >= 1 && counted <= picked
    ensures Sum(Crowd(n, level, picked, counted).pending) == picked - counted
  {
    SumZeros(Zeros(n));
    SumUpdate(Zeros(n), 0, picked - counted);
    assert Crowd(n, level, picked, counted).pending == Zeros(n)[0 := picked - counted];
  }

  lemma {:induction false} CrowdPicksFirst(n: nat, level: int, picked: nat)
    requires n >= 1
    ensures Make(Crowd(n, level, picked, 0), Choose) == Crowd(n, level, picked + 1, 0)
  {
    var f := Crowd(n, level, picked, 0);
    FirstMinIsFirst(f.loads, n);
    assert FirstMin(f.loads, n) == 0 by {
      if FirstMin(f.loads, n) > 0 {
        assert f.loads[FirstMin(f.loads, n)] < f.loads[0];
      }
    }
    assert Make(f, Choose).pending == Crowd(n, level, picked + 1, 0).pending;
  }

  lemma {:induction false} CrowdCounts(n: nat, level: int, picked: nat, counted: nat)
    requires n >= 1 && counted < picked
    ensures Enabled(Crowd(n, level, picked, counted), Count(0))
    ensures Make(Crowd(n, level, picked, counted), Count(0)) == Crowd(n, level, picked, counted + 1)
  {
    var f, f' := Crowd(n, level, picked, counted), Crowd(n, level, picked, counted + 1);
    assert Make(f, Count(0)).loads == f'.loads && Make(f, Count(0)).pending == f'.pending;
  }

  /** The bound cannot be lowered: for every c there is a run from equal loads that ends c apart. */
  lemma {:induction false} SkewIsReached(n: nat, level: int, c: nat)
    requires n >= 2
    ensures IsRun(CrowdTrace(n, level, c), CrowdMoves(c), c)
    ensures CrowdTrace(n, level, c)[0] == Fleet(seq(n, i => level), Zeros(n))
    ensures var last := CrowdTrace(n, level, c)[2 * c];
            |last.loads| == n && last.loads[0] - last.loads[1] == c
  {
    var t, ms := CrowdTrace(n, level, c), CrowdMoves(c);
    forall i | 0 <= i < |t| ensures Sized(t[i]) && Sum(t[i].pending) <= c {
      CrowdPending(n, level, if i <= c then i else c, if i <= c then 0 else i - c);
    }
    forall i | 0 <= i < |ms| ensures Enabled(t[i], ms[i]) && t[i + 1] == Make(t[i], ms[i]) {
      if i < c {
        CrowdPicksFirst(n, level, i);
      } else {
        assert t[i] == Crowd(n, level, c, i - c);
        CrowdCounts(n, level, c, i - c);
      }
    }
    assert t[2 * c] == Crowd(n, level, c, c);
    assert t[0].loads == seq(n, i => level) && t[0].pending == Zeros(n);
  }
}
