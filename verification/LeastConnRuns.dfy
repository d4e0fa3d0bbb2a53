/**
 * Least connections, read by read: runs that drive backends further apart than the number of requests
 * in flight, and with them the exact condition under which no run does.
 */
module LeastConnRuns {
  import opened Sums
  import opened Collections
  import opened LeastConnScan
  import opened LeastConnTight

  // -------------------------------------------------------------- drawing a run

  /** Stopped just after reading the last load, or settled and about to be counted. */
  datatype Place = Stalled(best: nat, seen: int) | Settled(best: nat)

  /** What matters of a moment: the loads, how many requests are at each place, how many are in flight. */
  datatype Sketch = Sketch(loads: seq<int>, waiting: multiset<Place>, flight: nat, next: nat)

  predicate Fits(s: Look, w: Place, n: nat)
  {
    match w
    case Stalled(best, seen) => s.Comparing? && s.i + 1 == n && s.best == best && s.seen == seen
    case Settled(best) => s.Chosen? && s.best == best
  }

  function At(p: Pool, w: Place, n: nat): set<nat>
  {
    set r | r in p.requests && Fits(p.requests[r], w, n)
  }

  ghost predicate Shows(p: Pool, n: nat, c: nat, s: Sketch)
  {
    && p.loads == s.loads && |s.loads| == n >= 3
    && (forall w :: |At(p, w, n)| == s.waiting[w])
    && |InFlight(p)| == s.flight <= c
    && forall r :: r in p.requests ==> r < s.next
  }

  ghost predicate Draws(trace: seq<Pool>, moves: seq<Move>, n: nat, level: int, c: nat, s: Sketch)
  {
    IsRun(trace, moves, n, level, c) && Shows(trace[|moves|], n, c, s)
  }

  ghost predicate Possible(n: nat, level: int, c: nat, s: Sketch)
  {
    exists trace: seq<Pool>, moves: seq<Move> :: Draws(trace, moves, n, level, c, s)
  }

  /** One more move; only a new request needs room. */
  lemma {:induction false} Push(trace: seq<Pool>, moves: seq<Move>, n: nat, level: int, c: nat, m: Move)
    returns (trace': seq<Pool>, moves': seq<Move>)
    requires IsRun(trace, moves, n, level, c) && Enabled(trace[|moves|], m)
    requires m.Begin? ==> |InFlight(trace[|moves|])| < c
    ensures IsRun(trace', moves', n, level, c)
    ensures |moves'| == |moves| + 1 && trace'[|moves'|] == Step(trace[|moves|], m, |moves|)
  {
    hide Enabled, Step, InFlight;
    NoOneElse(trace[|moves|], m, |moves|);
    trace', moves' := trace + [Step(trace[|moves|], m, |moves|)], moves + [m];
  }

  lemma {:induction false} NoOneElse(p: Pool, m: Move, t: nat)
    requires Enabled(p, m)
    ensures |InFlight(Step(p, m, t))| <= |InFlight(p)| + if m.Begin? then 1 else 0
  {
    var busy := InFlight(p);
    if m.Begin? {
      Fewer(InFlight(Step(p, m, t)), busy + {m.r});
    } else {
      Fewer(InFlight(Step(p, m, t)), busy);
    }
  }

  lemma {:induction false} AtTheEnd(trace: seq<Pool>, moves: seq<Move>, n: nat, level: int, c: nat)
    requires IsRun(trace, moves, n, level, c)
    ensures |trace| == |moves| + 1
  {
  }

  lemma {:induction false} OnlyFirst(loads: seq<int>, m: nat, a: nat, b: nat)
    requires FirstLeast(loads, m, a) && FirstLeast(loads, m, b)
    ensures a == b
  {
    assert loads[a] == loads[b];
  }

  /** A request that scans alone finds the first of the smallest. */
  lemma {:induction false} ScanTo(trace: seq<Pool>, moves: seq<Move>, n: nat, level: int, c: nat, r: nat, i: nat)
    returns (trace': seq<Pool>, moves': seq<Move>, best: nat, since: nat)
    requires IsRun(trace, moves, n, level, c)
    requires var p := trace[|moves|]; |p.loads| == n && 1 <= i < n && r !in p.requests && |InFlight(p)| < c
    ensures IsRun(trace', moves', n, level, c)
    ensures var p := trace[|moves|];
            && trace'[|moves'|] == p.(requests := p.requests[r := Fetching(best, since, i)])
            && FirstLeast(p.loads, i, best)
    decreases i
  {
    hide IsRun, InFlight;
    AtTheEnd(trace, moves, n, level, c);
    var p := trace[|moves|];
    if i == 1 {
      best, since := 0, |moves| + 1;
      trace', moves' := Push(trace, moves, n, level, c, Begin(r));
    } else {
      trace', moves', best, since := ScanTo(trace, moves, n, level, c, r, i - 1);
      var at := |moves'| + 1;
      trace', moves' := Push(trace', moves', n, level, c, Fetch(r));
      trace', moves' := Push(trace', moves', n, level, c, Compare(r));
      if p.loads[i - 1] < p.loads[best] {
        best, since := i - 1, at;
      }
    }
  }

  // ------------------------------------------------------------ moves of a sketch

  function MoreStalled(s: Sketch, best: nat, k: nat): Sketch
    requires s.loads != []
  {
    var w := Stalled(best, s.loads[|s.loads| - 1]);
    Sketch(s.loads, s.waiting[w := s.waiting[w] + k], s.flight + k, s.next + k)
  }

  function MoreSettled(s: Sketch, w: Place, j: nat, k: nat): Sketch
    requires k <= s.waiting[w]
  {
    s.(waiting := s.waiting[w := s.waiting[w] - k][Settled(j) := s.waiting[Settled(j)] + k])
  }

  function MoreLanded(s: Sketch, j: nat, k: nat): Sketch
    requires j < |s.loads| && k <= s.waiting[Settled(j)] && k <= s.flight
  {
    Sketch(s.loads[j := s.loads[j] + k], s.waiting[Settled(j) := s.waiting[Settled(j)] - k], s.flight - k, s.next)
  }

  predicate OnRecord(p: Pool, r: nat, w: Place, n: nat)
  {
    r in p.requests && Fits(p.requests[r], w, n)
  }

  /** One request changes its place, and the loads with it perhaps: the counts follow. */
  lemma {:induction false} Redrawn(p: Pool, p': Pool, r: nat, look: Look, n: nat, c: nat, s: Sketch, s': Sketch)
    requires Shows(p, n, c, s) && p'.requests == p.requests[r := look]
    requires p'.loads == s'.loads && |s'.loads| == n && s.next <= s'.next && r < s'.next
    requires forall v ::
               s'.waiting[v] + (if OnRecord(p, r, v, n) then 1 else 0)
               == s.waiting[v] + (if Fits(look, v, n) then 1 else 0)
    requires s'.flight + (if r in p.requests && Busy(p.requests[r]) then 1 else 0)
          == s.flight + (if Busy(look) then 1 else 0)
    requires s'.flight <= c
    ensures Shows(p', n, c, s')
  {
    FlightRecount(p, p', r, look);
    forall v ensures |At(p', v, n)| == s'.waiting[v] {
      PlaceRecount(p, p', r, look, n, v);
    }
  }

  lemma {:induction false} FlightRecount(p: Pool, p': Pool, r: nat, look: Look)
    requires p'.requests == p.requests[r := look]
    ensures |InFlight(p')|
         == |InFlight(p)| + (if Busy(look) then 1 else 0) - (if r in p.requests && Busy(p.requests[r]) then 1 else 0)
  {
    InOrOut(InFlight(p), r);
    assert InFlight(p') == if Busy(look) then InFlight(p) + {r} else InFlight(p) - {r};
  }

  lemma {:induction false} PlaceRecount(p: Pool, p': Pool, r: nat, look: Look, n: nat, v: Place)
    requires p'.requests == p.requests[r := look]
    ensures |At(p', v, n)|
         == |At(p, v, n)| + (if Fits(look, v, n) then 1 else 0) - (if OnRecord(p, r, v, n) then 1 else 0)
  {
    InOrOut(At(p, v, n), r);
    assert At(p', v, n) == if Fits(look, v, n) then At(p, v, n) + {r} else At(p, v, n) - {r};
  }

  lemma {:induction false} InOrOut<T>(a: set<T>, x: T)
    ensures |a + {x}| == |a| + if x in a then 0 else 1
    ensures |a - {x}| == |a| - if x in a then 1 else 0
  {
    if x in a {
      assert a + {x} == a;
    } else {
      assert a - {x} == a;
    }
  }

  /** A new request scans up to the last load, reads it, and stops there. */
  lemma {:induction false} Stall(n: nat, level: int, c: nat, s: Sketch, best: nat)
    requires Possible(n, level, c, s) && s.flight < c && |s.loads| == n >= 3
    requires FirstLeast(s.loads, n - 1, best)
    ensures Possible(n, level, c, MoreStalled(s, best, 1))
  {
    hide IsRun, InFlight, At;
    var trace: seq<Pool>, moves: seq<Move> :| Draws(trace, moves, n, level, c, s);
    AtTheEnd(trace, moves, n, level, c);
    var p, r := trace[|moves|], s.next;
    var trace', moves', b, since := ScanTo(trace, moves, n, level, c, r, n - 1);
    OnlyFirst(s.loads, n - 1, b, best);
    var look := Comparing(best, since, n - 1, p.loads[n - 1], |moves'| + 1);
    trace', moves' := Push(trace', moves', n, level, c, Fetch(r));
    AtTheEnd(trace', moves', n, level, c);
    assert trace'[|moves'|].requests == p.requests[r := look];
    Redrawn(p, trace'[|moves'|], r, look, n, c, s, MoreStalled(s, best, 1));
    assert Draws(trace', moves', n, level, c, MoreStalled(s, best, 1));
  }

  lemma {:induction false} SomeoneAt(p: Pool, n: nat, c: nat, s: Sketch, w: Place) returns (r: nat)
    requires Shows(p, n, c, s) && s.waiting[w] > 0
    ensures r in p.requests && Fits(p.requests[r], w, n)
  {
    assert |At(p, w, n)| > 0;
    r := Any(At(p, w, n));
  }

  /** A stalled request makes its last comparison, against the load its candidate has now. */
  lemma {:induction false} Settle(n: nat, level: int, c: nat, s: Sketch, w: Place, j: nat)
    requires Possible(n, level, c, s) && |s.loads| == n >= 3
    requires w.Stalled? && s.waiting[w] > 0 && w.best < n
    requires j == if w.seen < s.loads[w.best] then n - 1 else w.best
    ensures Possible(n, level, c, MoreSettled(s, w, j, 1))
  {
    hide IsRun, InFlight, At;
    var trace: seq<Pool>, moves: seq<Move> :| Draws(trace, moves, n, level, c, s);
    AtTheEnd(trace, moves, n, level, c);
    var p := trace[|moves|];
    var r := SomeoneAt(p, n, c, s, w);
    var look := Chosen(j, if w.seen < s.loads[w.best] then p.requests[r].at else p.requests[r].since);
    var trace', moves' := Push(trace, moves, n, level, c, Compare(r));
    AtTheEnd(trace', moves', n, level, c);
    assert trace'[|moves'|].requests == p.requests[r := look];
    Redrawn(p, trace'[|moves'|], r, look, n, c, s, MoreSettled(s, w, j, 1));
    assert Draws(trace', moves', n, level, c, MoreSettled(s, w, j, 1));
  }

  /** A settled request is counted. */
  lemma {:induction false} Land(n: nat, level: int, c: nat, s: Sketch, j: nat)
    requires Possible(n, level, c, s) && |s.loads| == n >= 3 && j < n
    requires s.waiting[Settled(j)] > 0 && s.flight > 0
    ensures Possible(n, level, c, MoreLanded(s, j, 1))
  {
    hide IsRun, InFlight, At;
    var trace: seq<Pool>, moves: seq<Move> :| Draws(trace, moves, n, level, c, s);
    AtTheEnd(trace, moves, n, level, c);
    var p := trace[|moves|];
    var r := SomeoneAt(p, n, c, s, Settled(j));
    var look := Counted(j, p.requests[r].since);
    var trace', moves' := Push(trace, moves, n, level, c, Count(r));
    AtTheEnd(trace', moves', n, level, c);
    Redrawn(p, trace'[|moves'|], r, look, n, c, s, MoreLanded(s, j, 1));
    assert Draws(trace', moves', n, level, c, MoreLanded(s, j, 1));
  }

  // ------------------------------------------------------------- many at a time

  lemma {:induction false} StallMany(n: nat, level: int, c: nat, s: Sketch, best: nat, k: nat)
    requires Possible(n, level, c, s) && s.flight + k <= c && |s.loads| == n >= 3
    requires FirstLeast(s.loads, n - 1, best)
    ensures Possible(n, level, c, MoreStalled(s, best, k))
    decreases k
  {
    hide Possible;
    if k == 0 {
      assert MoreStalled(s, best, 0) == s;
    } else {
      StallMany(n, level, c, s, best, k - 1);
      Stall(n, level, c, MoreStalled(s, best, k - 1), best);
      assert MoreStalled(MoreStalled(s, best, k - 1), best, 1) == MoreStalled(s, best, k);
    }
  }

  lemma {:induction false} SettleMany(n: nat, level: int, c: nat, s: Sketch, w: Place, j: nat, k: nat)
    requires Possible(n, level, c, s) && |s.loads| == n >= 3
    requires w.Stalled? && k <= s.waiting[w] && w.best < n
    requires j == if w.seen < s.loads[w.best] then n - 1 else w.best
    ensures Possible(n, level, c, MoreSettled(s, w, j, k))
    decreases k
  {
    hide Possible;
    if k == 0 {
      assert MoreSettled(s, w, j, 0) == s;
    } else {
      SettleMany(n, level, c, s, w, j, k - 1);
      Settle(n, level, c, MoreSettled(s, w, j, k - 1), w, j);
      assert MoreSettled(MoreSettled(s, w, j, k - 1), w, j, 1) == MoreSettled(s, w, j, k);
    }
  }

  lemma {:induction false} LandMany(n: nat, level: int, c: nat, s: Sketch, j: nat, k: nat)
    requires Possible(n, level, c, s) && |s.loads| == n >= 3 && j < n
    requires k <= s.waiting[Settled(j)] && k <= s.flight
    ensures Possible(n, level, c, MoreLanded(s, j, k))
    decreases k
  {
    hide Possible;
    if k == 0 {
      assert MoreLanded(s, j, 0) == s;
    } else {
      LandMany(n, level, c, s, j, k - 1);
      Land(n, level, c, MoreLanded(s, j, k - 1), j);
      assert MoreLanded(MoreLanded(s, j, k - 1), j, 1) == MoreLanded(s, j, k);
    }
  }

  function Visited(s: Sketch, i: nat): Sketch
    requires i < |s.loads|
  {
    s.(loads := s.loads[i := s.loads[i] + 1], next := s.next + 1)
  }

  /** One request scans, settles and is counted while everyone else stands still. */
  lemma {:induction false} Visit(n: nat, level: int, c: nat, s: Sketch, i: nat)
    requires Possible(n, level, c, s) && s.flight < c && |s.loads| == n >= 3
    requires FirstLeast(s.loads, n - 1, i) && s.loads[i] <= s.loads[n - 1]
    ensures Possible(n, level, c, Visited(s, i))
  {
    hide Possible;
    var w := Stalled(i, s.loads[n - 1]);
    var s1 := MoreStalled(s, i, 1);
    Stall(n, level, c, s, i);
    var s2 := MoreSettled(s1, w, i, 1);
    Settle(n, level, c, s1, w, i);
    Land(n, level, c, s2, i);
    assert MoreLanded(s2, i, 1) == Visited(s, i);
  }

  // --------------------------------------------------------- running the last up

  /** The first i backends one above `level`, the others at it, the last wherever it is. */
  ghost predicate FilledTo(loads: seq<int>, n: nat, i: nat, level: int)
  {
    && |loads| == n && i < n
    && forall j :: 0 <= j < n - 1 ==> loads[j] == if j < i then level + 1 else level
  }

  /** One by one, requests fill up everything between the first and the last. */
  lemma {:induction false} Fill(n: nat, level: int, c: nat, s: Sketch, i: nat) returns (s': Sketch)
    requires Possible(n, level, c, s) && s.flight < c && n >= 3
    requires FilledTo(s.loads, n, i, level) && level <= s.loads[n - 1]
    ensures Possible(n, level, c, s') && FilledTo(s'.loads, n, n - 1, level) && s'.loads[n - 1] == s.loads[n - 1]
    ensures s'.waiting == s.waiting && s'.flight == s.flight
    decreases n - i
  {
    hide Possible;
    if i == n - 1 {
      s' := s;
    } else {
      Visit(n, level, c, s, i);
      s' := Fill(n, level, c, Visited(s, i), i + 1);
    }
  }

  lemma {:induction false} Start(n: nat, level: int, c: nat) returns (s: Sketch)
    requires n >= 3
    ensures Possible(n, level, c, s) && s == Sketch(Repeat(level, n), multiset{}, 0, 0)
  {
    s := Sketch(Repeat(level, n), multiset{}, 0, 0);
    var p := Pool(Repeat(level, n), map[]);
    assert InFlight(p) == {};
    forall w ensures At(p, w, n) == {} {
    }
    assert Draws([p], [], n, level, c, s);
  }

  /**
   * All c stall before the last load; one lands on the first, and the others follow their stale
   * reading to the last. Most of them land there, and everyone else is filled up to one above level.
   */
  lemma {:induction false} Prime(n: nat, level: int, c: nat) returns (s: Sketch)
    requires n >= 3 && c >= 3
    ensures Possible(n, level, c, s) && FilledTo(s.loads, n, n - 1, level) && s.loads[n - 1] == level + c - 2
    ensures s.waiting == multiset{}[Settled(n - 1) := 2] && s.flight == 2
  {
    hide Possible;
    s := Start(n, level, c);
    var w := Stalled(0, level);
    StallMany(n, level, c, s, 0, c);
    s := MoreStalled(s, 0, c);
    Settle(n, level, c, s, w, 0);
    s := MoreSettled(s, w, 0, 1);
    Land(n, level, c, s, 0);
    s := MoreLanded(s, 0, 1);
    SettleMany(n, level, c, s, w, n - 1, c - 1);
    s := MoreSettled(s, w, n - 1, c - 1);
    assert s.waiting == multiset{}[Settled(n - 1) := c - 1];
    Stall(n, level, c, s, 1);
    s := MoreStalled(s, 1, 1);
    LandMany(n, level, c, s, n - 1, c - 2);
    s := MoreLanded(s, n - 1, c - 2);
    s := Fill(n, level, c, s, 1);
    Settle(n, level, c, s, Stalled(1, level), n - 1);
    s := MoreSettled(s, Stalled(1, level), n - 1, 1);
    assert s.waiting == multiset{}[Settled(n - 1) := 2];
  }

  /** Four or more in flight: two wait with a stale reading while the rest run their candidate past it. */
  lemma {:induction false} FourRunAhead(n: nat, level: int, c: nat) returns (s: Sketch)
    requires n >= 3 && c >= 4
    ensures Possible(n, level, c, s) && FilledTo(s.loads, n, n - 1, level) && s.loads[n - 1] == level + c
    ensures s.waiting == multiset{}[Stalled(0, level + c - 2) := 2][Stalled(0, level + c) := c - 2] && s.flight == c
  {
    hide Possible;
    s := Prime(n, level, c);
    StallMany(n, level, c, s, 0, 2);
    s := MoreStalled(s, 0, 2);
    LandMany(n, level, c, s, n - 1, 2);
    s := MoreLanded(s, n - 1, 2);
    StallMany(n, level, c, s, 0, c - 2);
    s := MoreStalled(s, 0, c - 2);
  }

  lemma {:induction false} FourGoTooFar(n: nat, level: int, c: nat) returns (s: Sketch)
    requires n >= 3 && c >= 4
    ensures Possible(n, level, c, s) && |s.loads| == n && s.loads[n - 1] - s.loads[1] == c + 1
  {
    hide Possible;
    s := FourRunAhead(n, level, c);
    var stale, recent := Stalled(0, level + c - 2), Stalled(0, level + c);
    SettleMany(n, level, c, s, recent, 0, c - 2);
    s := MoreSettled(s, recent, 0, c - 2);
    LandMany(n, level, c, s, 0, c - 2);
    s := MoreLanded(s, 0, c - 2);
    SettleMany(n, level, c, s, stale, n - 1, 2);
    s := MoreSettled(s, stale, n - 1, 2);
    LandMany(n, level, c, s, n - 1, 2);
    s := MoreLanded(s, n - 1, 2);
  }

  /** Three in flight among four or more: the stale one's candidate is run up while a third backend stays behind. */
  lemma {:induction false} ThreeLeaveOneBehind(n: nat, level: int) returns (s: Sketch)
    requires n >= 4
    ensures Possible(n, level, 3, s) && |s.loads| == n && s.loads[0] == level + 2 && s.loads[n - 1] == level + 2
    ensures forall j :: 1 <= j < n - 1 ==> s.loads[j] == level + 1
    ensures s.waiting == multiset{}[Settled(n - 1) := 2] && s.flight == 2
  {
    hide Possible;
    s := Prime(n, level, 3);
    Stall(n, level, 3, s, 0);
    s := MoreStalled(s, 0, 1);
    Land(n, level, 3, s, n - 1);
    s := MoreLanded(s, n - 1, 1);
    Visit(n, level, 3, s, 0);
    s := Visited(s, 0);
    Settle(n, level, 3, s, Stalled(0, level + 1), n - 1);
    s := MoreSettled(s, Stalled(0, level + 1), n - 1, 1);
    assert s.waiting == multiset{}[Settled(n - 1) := 2];
  }

  lemma {:induction false} ThreeGoTooFar(n: nat, level: int) returns (s: Sketch)
    requires n >= 4
    ensures Possible(n, level, 3, s) && |s.loads| == n && s.loads[n - 1] - s.loads[2] == 4
  {
    hide Possible;
    s := ThreeLeaveOneBehind(n, level);
    var stale := Stalled(1, level + 2);
    Stall(n, level, 3, s, 1);
    s := MoreStalled(s, 1, 1);
    s := PassOne(n, level, s, level + 2);
    s := PassOne(n, level, s, level + 3);
    LandMany(n, level, 3, s, 1, 2);
    s := MoreLanded(s, 1, 2);
    Settle(n, level, 3, s, stale, n - 1);
    s := MoreSettled(s, stale, n - 1, 1);
    Land(n, level, 3, s, n - 1);
    s := MoreLanded(s, n - 1, 1);
  }

  /** One more lands on the last, and a new request settles on 1. */
  lemma {:induction false} PassOne(n: nat, level: int, s: Sketch, last: int) returns (s': Sketch)
    requires Possible(n, level, 3, s) && |s.loads| == n >= 4 && s.flight == 3
    requires FirstLeast(s.loads, n - 1, 1) && s.loads[n - 1] == last >= s.loads[1] && s.waiting[Settled(n - 1)] > 0
    requires s.waiting[Stalled(1, last + 1)] == 0
    ensures Possible(n, level, 3, s') && s'.flight == 3 && s'.loads == s.loads[n - 1 := last + 1]
    ensures s'.waiting
         == s.waiting[Settled(n - 1) := s.waiting[Settled(n - 1)] - 1][Settled(1) := s.waiting[Settled(1)] + 1]
  {
    hide Possible;
    Land(n, level, 3, s, n - 1);
    s' := MoreLanded(s, n - 1, 1);
    Stall(n, level, 3, s', 1);
    s' := MoreStalled(s', 1, 1);
    Settle(n, level, 3, s', Stalled(1, last + 1), 1);
    s' := MoreSettled(s', Stalled(1, last + 1), 1, 1);
  }

  // ------------------------------------------------------------ the exact condition

  /** No run of n backends that start at `level`, at most c requests in flight, ever drives two more than c apart. */
  ghost predicate AlwaysWithin(n: nat, level: int, c: nat)
  {
    forall trace: seq<Pool>, moves: seq<Move>, t: nat, a: nat, b: nat ::
      IsRun(trace, moves, n, level, c) && t < |trace| && a < n && b < n && |trace[t].loads| == n ==>
        trace[t].loads[a] - trace[t].loads[b] <= c
  }

  lemma {:induction false} TooFar(n: nat, level: int, c: nat, s: Sketch, a: nat, b: nat)
    requires Possible(n, level, c, s) && |s.loads| == n && a < n && b < n && s.loads[a] - s.loads[b] > c
    ensures !AlwaysWithin(n, level, c)
  {
    var trace: seq<Pool>, moves: seq<Move> :| Draws(trace, moves, n, level, c, s);
    assert IsRun(trace, moves, n, level, c) && |moves| < |trace| && |trace[|moves|].loads| == n;
  }

  lemma {:induction false} WithinWhen(
    trace: seq<Pool>, moves: seq<Move>, n: nat, level: int, c: nat, t: nat, a: nat, b: nat)
    requires IsRun(trace, moves, n, level, c) && t < |trace| && a < n && b < n
    requires n <= 2 || c <= 2 || (n == 3 && c == 3)
    ensures |trace[t].loads| == n && trace[t].loads[a] - trace[t].loads[b] <= c
  {
    hide IsRun, Demand;
    if n == 3 && c == 3 {
      LoadWithinDemand(trace, moves, n, level, c, t, a);
      ThreeStayTight(trace, moves, level, t, a, b);
    } else {
      ScanSkewIsBounded(trace, moves, n, level, c, t, a, b);
    }
  }

  /**
   * With every load read by itself, level backends always stay within the number of requests in flight
   * exactly when there are at most two of the one or of the other, or three of both.
   */
  lemma {:induction false} AlwaysWithinIff(n: nat, level: int, c: nat)
    ensures AlwaysWithin(n, level, c) <==> n <= 2 || c <= 2 || (n == 3 && c == 3)
  {
    if n <= 2 || c <= 2 || (n == 3 && c == 3) {
      forall trace: seq<Pool>, moves: seq<Move>, t: nat, a: nat, b: nat |
        IsRun(trace, moves, n, level, c) && t < |trace| && a < n && b < n && |trace[t].loads| == n
        ensures trace[t].loads[a] - trace[t].loads[b] <= c
      {
        WithinWhen(trace, moves, n, level, c, t, a, b);
      }
    } else if c >= 4 {
      var s := FourGoTooFar(n, level, c);
      TooFar(n, level, c, s, n - 1, 1);
    } else {
      var s := ThreeGoTooFar(n, level);
      TooFar(n, level, c, s, n - 1, 2);
    }
  }
}
