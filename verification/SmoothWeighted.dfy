/**
 * The smooth weighted round-robin step on plain values: `current` counters,
 * configured weights and alive flags, all indexed by position in the balancer.
 */
module SmoothWeighted {
  import opened Sums

  datatype Choice = NoneAlive | Chosen(index: nat)

  /** A dead backend takes no part in a call: it neither gains weight nor adds to the total. */
  function Effective(weights: seq<int>, alive: seq<bool>): (e: seq<int>)
    requires |weights| == |alive|
    ensures |e| == |weights|
    ensures forall i :: 0 <= i < |e| ==> e[i] == if alive[i] then weights[i] else 0
  {
    seq(|weights|, i requires 0 <= i < |weights| => if alive[i] then weights[i] else 0)
  }

  /** The scan for the largest alive value below position n; a later one must be strictly larger. */
  function FirstMax(xs: seq<int>, alive: seq<bool>, n: nat): (c: Choice)
    requires n <= |xs| == |alive|
    ensures c.Chosen? ==> c.index < n && alive[c.index]
  {
    if n == 0 then NoneAlive
    else
      var c := FirstMax(xs, alive, n - 1);
      if alive[n - 1] && (c.NoneAlive? || xs[n - 1] > xs[c.index]) then Chosen(n - 1) else c
  }

  lemma {:induction false} FirstMaxStart(xs: seq<int>, alive: seq<bool>)
    requires |xs| == |alive|
    ensures FirstMax(xs, alive, 0) == NoneAlive
  {
  }

  lemma {:induction false} FirstMaxNext(xs: seq<int>, alive: seq<bool>, i: nat)
    requires i < |xs| == |alive|
    ensures var c := FirstMax(xs, alive, i);
            FirstMax(xs, alive, i + 1)
            == if alive[i] && (c.NoneAlive? || xs[i] > xs[c.index]) then Chosen(i) else c
  {
  }

  /** The scan fails only when nobody is alive, and otherwise finds the first of the largest. */
  lemma {:induction false} FirstMaxIsFirst(xs: seq<int>, alive: seq<bool>, n: nat)
    requires n <= |xs| == |alive|
    ensures var c := FirstMax(xs, alive, n);
            && (c.NoneAlive? <==> forall i :: 0 <= i < n ==> !alive[i])
            && (c.Chosen? ==>
                  && (forall i :: 0 <= i < n && alive[i] ==> xs[i] <= xs[c.index])
                  && (forall i :: 0 <= i < c.index && alive[i] ==> xs[i] < xs[c.index]))
    decreases n
  {
    if n > 0 {
      FirstMaxIsFirst(xs, alive, n - 1);
    }
  }

  /** One call of Next: everyone alive gains its weight, the largest is picked and pays the total. */
  function Pick(current: seq<int>, weights: seq<int>, alive: seq<bool>): Choice
    requires |current| == |weights| == |alive|
  {
    FirstMax(Plus(current, Effective(weights, alive)), alive, |alive|)
  }

  /**
   * The picked backend is the first, among the alive ones, of the largest counter plus weight; none is
   * picked only if none is alive.
   */
  lemma {:induction false} PickIsFirstLargest(current: seq<int>, weights: seq<int>, alive: seq<bool>)
    requires |current| == |weights| == |alive|
    ensures var c := Pick(current, weights, alive);
            && (c.NoneAlive? <==> forall i :: 0 <= i < |alive| ==> !alive[i])
            && (c.Chosen? ==>
                  && c.index < |alive| && alive[c.index]
                  && (forall i :: 0 <= i < |alive| && alive[i] ==>
                        current[i] + weights[i] <= current[c.index] + weights[c.index])
                  && (forall i :: 0 <= i < c.index && alive[i] ==>
                        current[i] + weights[i] < current[c.index] + weights[c.index]))
  {
    var raised := Plus(current, Effective(weights, alive));
    FirstMaxIsFirst(raised, alive, |alive|);
    assert forall i :: 0 <= i < |alive| && alive[i] ==> raised[i] == current[i] + weights[i];
  }

  function After(current: seq<int>, weights: seq<int>, alive: seq<bool>): (c: seq<int>)
    requires |current| == |weights| == |alive|
    ensures |c| == |current|
  {
    var raised := Plus(current, Effective(weights, alive));
    match Pick(current, weights, alive)
    case NoneAlive => raised
    case Chosen(b) => raised[b := raised[b] - Sum(Effective(weights, alive))]
  }

  // ------------------------------------------------------------------ churn

  /** What can happen to a balancer: a call under some pattern of alive flags, or a new config. */
  datatype Event = Call(alive: seq<bool>) | Reconfigure(weights: seq<int>)

  datatype Balancer = Balancer(weights: seq<int>, current: seq<int>)

  ghost predicate Sized(b: Balancer)
  {
    |b.weights| == |b.current|
  }

  function Step(b: Balancer, e: Event): (b': Balancer)
    requires Sized(b)
    ensures Sized(b')
  {
    match e
    case Call(alive) =>
      if |alive| == |b.weights| then b.(current := After(b.current, b.weights, alive)) else b
    case Reconfigure(ws) => Balancer(ws, Zeros(|ws|))
  }

  function Run(weights: seq<int>, es: seq<Event>): (b: Balancer)
    ensures Sized(b)
  {
    if es == [] then Balancer(weights, Zeros(|weights|))
    else Step(Run(weights, es[..|es| - 1]), es[|es| - 1])
  }

  lemma {:induction false} AfterNone(current: seq<int>, weights: seq<int>, alive: seq<bool>)
    requires |current| == |weights| == |alive|
    requires Pick(current, weights, alive).NoneAlive?
    ensures After(current, weights, alive) == Plus(current, Effective(weights, alive))
  {
  }

  lemma {:induction false} AfterChosen(current: seq<int>, weights: seq<int>, alive: seq<bool>, b: nat)
    requires |current| == |weights| == |alive|
    requires Pick(current, weights, alive) == Chosen(b)
    ensures var gain := Effective(weights, alive);
            After(current, weights, alive) == Plus(current, gain)[b := Plus(current, gain)[b] - Sum(gain)]
  {
  }

  /** A call moves weight between backends but never creates or destroys any. */
  lemma {:induction false} CallConserves(current: seq<int>, weights: seq<int>, alive: seq<bool>)
    requires |current| == |weights| == |alive|
    ensures Sum(After(current, weights, alive)) == Sum(current)
    ensures Pick(current, weights, alive).NoneAlive? ==> After(current, weights, alive) == current
  {
    match Pick(current, weights, alive) {
      case NoneAlive =>
        FirstMaxIsFirst(Plus(current, Effective(weights, alive)), alive, |alive|);
        assert After(current, weights, alive) == current;
      case Chosen(b) =>
        var after := After(current, weights, alive);
        AfterChosen(current, weights, alive, b);
        TransferConserves(current, Effective(weights, alive), b);
        assert Sum(after) == Sum(current);
    }
  }

  /** What a single call does to a single counter. */
  lemma {:induction false} AfterAt(current: seq<int>, weights: seq<int>, alive: seq<bool>, i: nat)
    requires |current| == |weights| == |alive| && i < |current|
    ensures After(current, weights, alive)[i]
         == current[i] + Effective(weights, alive)[i]
            - if Pick(current, weights, alive) == Chosen(i) then Sum(Effective(weights, alive)) else 0
  {
  }

  /** Whatever flags flip and configs arrive, the counters of a balancer always sum to zero. */
  lemma {:induction false} ConservationUnderChurn(weights: seq<int>, es: seq<Event>)
    ensures Sum(Run(weights, es).current) == 0
  {
    if es == [] {
      SumZeros(Zeros(|weights|));
    } else {
      var b := Run(weights, es[..|es| - 1]);
      ConservationUnderChurn(weights, es[..|es| - 1]);
      match es[|es| - 1] {
        case Call(alive) =>
          if |alive| == |b.weights| {
            CallConserves(b.current, b.weights, alive);
          }
        case Reconfigure(ws) =>
          SumZeros(Zeros(|ws|));
      }
    }
  }

  // -------------------------------------------------- a fixed set of backends

  /** Non-negative weights whose alive part is positive: what the config check leaves in practice. */
  ghost predicate Fair(weights: seq<int>, alive: seq<bool>)
    requires |weights| == |alive|
  {
    && (forall i :: 0 <= i < |weights| ==> 0 <= weights[i])
    && exists i :: 0 <= i < |alive| && alive[i] && 0 < weights[i]
  }

  function Total(weights: seq<int>, alive: seq<bool>): int
    requires |weights| == |alive|
  {
    Sum(Effective(weights, alive))
  }

  lemma {:induction false} TotalPositive(weights: seq<int>, alive: seq<bool>)
    requires |weights| == |alive| && Fair(weights, alive)
    ensures 1 <= Total(weights, alive)
    ensures exists i :: 0 <= i < |alive| && alive[i]
  {
    var e := Effective(weights, alive);
    SumDominates(Zeros(|e|), e);
    SumZeros(Zeros(|e|));
    var i :| 0 <= i < |alive| && alive[i] && 0 < weights[i];
    assert e[i] != Zeros(|e|)[i];
  }

  /** The counters after k calls from a fresh balancer. */
  function Current(weights: seq<int>, alive: seq<bool>, k: nat): (c: seq<int>)
    requires |weights| == |alive|
    ensures |c| == |weights|
  {
    if k == 0 then Zeros(|weights|) else After(Current(weights, alive, k - 1), weights, alive)
  }

  /** The backend the k-th call returns, counting from 0. */
  function Schedule(weights: seq<int>, alive: seq<bool>, k: nat): Choice
    requires |weights| == |alive|
  {
    Pick(Current(weights, alive, k), weights, alive)
  }

  /** How often each backend was returned by the first k calls. */
  function Counts(weights: seq<int>, alive: seq<bool>, k: nat): (n: seq<int>)
    requires |weights| == |alive|
    ensures |n| == |weights|
  {
    if k == 0 then Zeros(|weights|)
    else
      var n := Counts(weights, alive, k - 1);
      match Schedule(weights, alive, k - 1)
      case NoneAlive => n
      case Chosen(b) => n[b := n[b] + 1]
  }

  /** The arithmetic of one more call: what was owed and given grows by one call's worth. */
  lemma {:induction false} DebtAfterOneMore(
    before: int, after: int, k: int, e: int, w: int, n: int, n': int, picked: bool)
    requires before == (k - 1) * e - w * n
    requires after == before + e - (if picked then w else 0)
    requires n' == n + if picked then 1 else 0
    ensures after == k * e - w * n'
  {
    assert (k - 1) * e == k * e - e;
    assert w * (n + 1) == w * n + w;
  }

  /** The counters are exactly what each backend is owed minus what it was given. */
  lemma {:induction false} CurrentIsDebt(weights: seq<int>, alive: seq<bool>, k: nat, i: nat)
    requires |weights| == |alive| && i < |weights|
    ensures Current(weights, alive, k)[i]
         == k * Effective(weights, alive)[i] - Total(weights, alive) * Counts(weights, alive, k)[i]
    decreases k
  {
    if k == 0 {
      NothingOwed(Effective(weights, alive)[i], Total(weights, alive), Counts(weights, alive, k)[i]);
    } else {
      CurrentIsDebt(weights, alive, k - 1, i);
      DebtStep(weights, alive, k, i);
    }
  }

  lemma {:induction false} NothingOwed(e: int, w: int, n: int)
    requires n == 0
    ensures 0 * e - w * n == 0
  {
  }

  lemma {:induction false} DebtStep(weights: seq<int>, alive: seq<bool>, k: nat, i: nat)
    requires |weights| == |alive| && i < |weights| && k > 0
    requires Current(weights, alive, k - 1)[i]
          == (k - 1) * Effective(weights, alive)[i] - Total(weights, alive) * Counts(weights, alive, k - 1)[i]
    ensures Current(weights, alive, k)[i]
         == k * Effective(weights, alive)[i] - Total(weights, alive) * Counts(weights, alive, k)[i]
  {
    AfterAt(Current(weights, alive, k - 1), weights, alive, i);
    CountsAt(weights, alive, k, i);
    DebtAfterOneMore(Current(weights, alive, k - 1)[i], Current(weights, alive, k)[i], k,
                     Effective(weights, alive)[i], Total(weights, alive),
                     Counts(weights, alive, k - 1)[i], Counts(weights, alive, k)[i],
                     Schedule(weights, alive, k - 1) == Chosen(i));
  }

  lemma {:induction false} CountsAt(weights: seq<int>, alive: seq<bool>, k: nat, i: nat)
    requires |weights| == |alive| && i < |weights| && k > 0
    ensures Counts(weights, alive, k)[i] == Counts(weights, alive, k - 1)[i]
            + if Schedule(weights, alive, k - 1) == Chosen(i) then 1 else 0
  {
  }

  /** The counts are the calls that returned each backend. */
  lemma {:induction false} PicksAreCounted(weights: seq<int>, alive: seq<bool>, k: nat, i: nat)
    requires |weights| == |alive| && i < |weights|
    ensures Counts(weights, alive, k)[i] == |set j | 0 <= j < k && Schedule(weights, alive, j) == Chosen(i)|
    decreases k
  {
    hide Schedule, Counts;
    if k == 0 {
      NoPicks(weights, alive, i);
    } else {
      PicksAreCounted(weights, alive, k - 1, i);
      CountsAt(weights, alive, k, i);
      var before := set j | 0 <= j < k - 1 && Schedule(weights, alive, j) == Chosen(i);
      assert (set j | 0 <= j < k && Schedule(weights, alive, j) == Chosen(i))
          == if Schedule(weights, alive, k - 1) == Chosen(i) then before + {k - 1} else before;
    }
  }

  lemma {:induction false} NoPicks(weights: seq<int>, alive: seq<bool>, i: nat)
    requires |weights| == |alive| && i < |weights|
    ensures Counts(weights, alive, 0)[i] == 0
  {
  }

  lemma {:induction false} SomeoneIsChosen(weights: seq<int>, alive: seq<bool>, k: nat)
    requires |weights| == |alive| && Fair(weights, alive)
    ensures Schedule(weights, alive, k).Chosen? && Schedule(weights, alive, k).index < |weights|
  {
    TotalPositive(weights, alive);
    FirstMaxIsFirst(Plus(Current(weights, alive, k), Effective(weights, alive)), alive, |alive|);
  }

  lemma {:induction false} CountsNext(weights: seq<int>, alive: seq<bool>, k: nat, b: nat)
    requires |weights| == |alive| && k > 0 && b < |weights|
    requires Schedule(weights, alive, k - 1) == Chosen(b)
    ensures Counts(weights, alive, k) == Counts(weights, alive, k - 1)[b := Counts(weights, alive, k - 1)[b] + 1]
  {
  }

  /** Every call returns exactly one backend. */
  lemma {:induction false} CountsSum(weights: seq<int>, alive: seq<bool>, k: nat)
    requires |weights| == |alive| && Fair(weights, alive)
    ensures Sum(Counts(weights, alive, k)) == k
    decreases k
  {
    hide Sum, Schedule;
    if k == 0 {
      SumZeros(Counts(weights, alive, k));
    } else {
      CountsSum(weights, alive, k - 1);
      SomeoneIsChosen(weights, alive, k - 1);
      var b := Schedule(weights, alive, k - 1).index;
      CountsNext(weights, alive, k, b);
      SumUpdate(Counts(weights, alive, k - 1), b, Counts(weights, alive, k - 1)[b] + 1);
    }
  }

  lemma {:induction false} CurrentSumsToZero(weights: seq<int>, alive: seq<bool>, k: nat)
    requires |weights| == |alive|
    ensures Sum(Current(weights, alive, k)) == 0
    decreases k
  {
    if k == 0 {
      SumZeros(Zeros(|weights|));
    } else {
      CurrentSumsToZero(weights, alive, k - 1);
      CallConserves(Current(weights, alive, k - 1), weights, alive);
    }
  }

  /** The picked counter was positive when picked, because the raised counters sum to the total. */
  lemma {:induction false} PickedIsPositive(current: seq<int>, weights: seq<int>, alive: seq<bool>)
    requires |current| == |weights| == |alive| && Fair(weights, alive)
    requires Sum(current) == 0
    requires forall i :: 0 <= i < |alive| && !alive[i] ==> current[i] == 0
    ensures Pick(current, weights, alive).Chosen?
    ensures 1 <= Plus(current, Effective(weights, alive))[Pick(current, weights, alive).index]
  {
    TotalPositive(weights, alive);
    var raised := Plus(current, Effective(weights, alive));
    FirstMaxIsFirst(raised, alive, |alive|);
    SumPlus(current, Effective(weights, alive));
    if raised[Pick(current, weights, alive).index] <= 0 {
      SumDominates(raised, Zeros(|raised|));
      SumZeros(Zeros(|raised|));
    }
  }

  lemma {:induction false} DeadStaysAtZero(weights: seq<int>, alive: seq<bool>, k: nat)
    requires |weights| == |alive|
    ensures forall i :: 0 <= i < |alive| && !alive[i] ==> Current(weights, alive, k)[i] == 0
    decreases k
  {
    if k > 0 {
      DeadStaysAtZero(weights, alive, k - 1);
    }
  }

  lemma {:induction false} AheadStep(current: seq<int>, weights: seq<int>, alive: seq<bool>, i: nat)
    requires |current| == |weights| == |alive| && i < |current| && Fair(weights, alive)
    requires Sum(current) == 0
    requires forall j :: 0 <= j < |alive| && !alive[j] ==> current[j] == 0
    requires current[i] > -Total(weights, alive)
    ensures After(current, weights, alive)[i] > -Total(weights, alive)
  {
    TotalPositive(weights, alive);
    PickedIsPositive(current, weights, alive);
    AfterAt(current, weights, alive, i);
  }

  /** No counter ever falls to -W: a backend is never more than one pick ahead of its share. */
  lemma {:induction false} NeverAheadByAPick(weights: seq<int>, alive: seq<bool>, k: nat, i: nat)
    requires |weights| == |alive| && Fair(weights, alive) && i < |weights|
    ensures Current(weights, alive, k)[i] > -Total(weights, alive)
    decreases k
  {
    hide *;
    if k == 0 {
      FreshIsNotAhead(weights, alive, i);
    } else {
      NeverAheadByAPick(weights, alive, k - 1, i);
      CurrentSumsToZero(weights, alive, k - 1);
      DeadStaysAtZero(weights, alive, k - 1);
      CurrentNext(weights, alive, k);
      AheadStep(Current(weights, alive, k - 1), weights, alive, i);
    }
  }

  lemma {:induction false} FreshIsNotAhead(weights: seq<int>, alive: seq<bool>, i: nat)
    requires |weights| == |alive| && Fair(weights, alive) && i < |weights|
    ensures Current(weights, alive, 0)[i] > -Total(weights, alive)
  {
    TotalPositive(weights, alive);
  }

  /** How many of the backends are alive. */
  function AliveCount(alive: seq<bool>): int
  {
    Sum(Ones(alive))
  }

  function Ones(alive: seq<bool>): (ones: seq<int>)
    ensures |ones| == |alive|
    ensures forall i :: 0 <= i < |ones| ==> ones[i] == if alive[i] then 1 else 0
  {
    seq(|alive|, i requires 0 <= i < |alive| => if alive[i] then 1 else 0)
  }

  lemma {:induction false} AliveIsCounted(alive: seq<bool>)
    ensures AliveCount(alive) == |set i | 0 <= i < |alive| && alive[i]|
    decreases |alive|
  {
    if alive != [] {
      var n := |alive| - 1;
      AliveIsCounted(alive[..n]);
      assert Ones(alive)[..n] == Ones(alive[..n]);
      var before := set i | 0 <= i < n && alive[..n][i];
      assert (set i | 0 <= i < |alive| && alive[i]) == if alive[n] then before + {n} else before;
    }
  }

  lemma {:induction false} RestBoundsOne(c: seq<int>, alive: seq<bool>, w: int, i: nat)
    requires |c| == |alive| && i < |c| && alive[i] && Sum(c) == 0
    requires forall j :: 0 <= j < |c| ==> c[j] >= if alive[j] then 1 - w else 0
    ensures c[i] <= (AliveCount(alive) - 1) * (w - 1)
  {
    var floor := seq(|alive|, j requires 0 <= j < |alive| => if alive[j] then 1 - w else 0);
    SumScale(Ones(alive), floor, 1 - w);
    SumUpdate(floor, i, c[i]);
    SumDominates(floor[i := c[i]], c);
    CountTimes(AliveCount(alive), w);
  }

  lemma {:induction false} CountTimes(m: int, w: int)
    ensures (1 - w) - m * (1 - w) == (m - 1) * (w - 1)
  {
  }

  /** No counter exceeds (m-1)(W-1): a backend is never kept waiting for longer than that buys. */
  lemma {:induction false} NeverBehindByMore(weights: seq<int>, alive: seq<bool>, k: nat, i: nat)
    requires |weights| == |alive| && Fair(weights, alive) && i < |weights| && alive[i]
    ensures Current(weights, alive, k)[i]
         <= (|set j | 0 <= j < |alive| && alive[j]| - 1) * (Total(weights, alive) - 1)
  {
    AliveIsCounted(alive);
    var c, w := Current(weights, alive, k), Total(weights, alive);
    CurrentSumsToZero(weights, alive, k);
    DeadStaysAtZero(weights, alive, k);
    forall j | 0 <= j < |c| ensures c[j] >= if alive[j] then 1 - w else 0 {
      NeverAheadByAPick(weights, alive, k, j);
    }
    RestBoundsOne(c, alive, w, i);
  }

  /** A debt above -w means nobody was given more than its due of w rounds. */
  lemma {:induction false} NoOverdraft(debt: int, w: int, e: int, n: int)
    requires w >= 1 && debt == w * e - w * n && debt > -w
    ensures n <= e
    ensures n == e ==> debt == 0
  {
    assert n >= e + 1 ==> w * n >= w * (e + 1) == w * e + w;
  }

  lemma {:induction false} QuotaNotExceeded(weights: seq<int>, alive: seq<bool>, i: nat)
    requires |weights| == |alive| && Fair(weights, alive) && i < |weights|
    ensures Total(weights, alive) >= 1
    ensures var w := Total(weights, alive);
            && Counts(weights, alive, w)[i] <= Effective(weights, alive)[i]
            && (Counts(weights, alive, w)[i] == Effective(weights, alive)[i] ==> Current(weights, alive, w)[i] == 0)
  {
    TotalPositive(weights, alive);
    var w := Total(weights, alive);
    CurrentIsDebt(weights, alive, w, i);
    NeverAheadByAPick(weights, alive, w, i);
    NoOverdraft(Current(weights, alive, w)[i], w, Effective(weights, alive)[i], Counts(weights, alive, w)[i]);
  }

  /** After W calls every backend has been returned exactly as often as its weight says. */
  lemma {:induction false} ExactQuota(weights: seq<int>, alive: seq<bool>)
    requires |weights| == |alive| && Fair(weights, alive)
    ensures Total(weights, alive) >= 1
    ensures Counts(weights, alive, Total(weights, alive)) == Effective(weights, alive)
    ensures Current(weights, alive, Total(weights, alive)) == Zeros(|weights|)
  {
    TotalPositive(weights, alive);
    var w, e := Total(weights, alive), Effective(weights, alive);
    var n, c := Counts(weights, alive, w), Current(weights, alive, w);
    forall i | 0 <= i < |n| ensures n[i] <= e[i] && (n[i] == e[i] ==> c[i] == 0) {
      QuotaNotExceeded(weights, alive, i);
    }
    CountsSum(weights, alive, w);
    SumDominates(n, e);
  }

  /** From then on the balancer repeats itself: the schedule has period W. */
  lemma {:induction false} Periodic(weights: seq<int>, alive: seq<bool>, k: nat)
    requires |weights| == |alive| && Fair(weights, alive)
    ensures Total(weights, alive) >= 1
    ensures Current(weights, alive, k + Total(weights, alive)) == Current(weights, alive, k)
    decreases k
  {
    hide *;
    if k == 0 {
      ExactQuota(weights, alive);
      FreshIsZero(weights, alive);
    } else {
      Periodic(weights, alive, k - 1);
      CurrentNext(weights, alive, k);
      CurrentNext(weights, alive, k + Total(weights, alive));
    }
  }

  lemma {:induction false} ScheduleRepeats(weights: seq<int>, alive: seq<bool>, k: nat)
    requires |weights| == |alive| && Fair(weights, alive)
    ensures Total(weights, alive) >= 1
    ensures Schedule(weights, alive, k + Total(weights, alive)) == Schedule(weights, alive, k)
  {
    hide *;
    Periodic(weights, alive, k);
    SameCurrentSamePick(weights, alive, k, k + Total(weights, alive));
  }

  lemma {:induction false} SameCurrentSamePick(weights: seq<int>, alive: seq<bool>, j: nat, k: nat)
    requires |weights| == |alive| && Current(weights, alive, j) == Current(weights, alive, k)
    ensures Schedule(weights, alive, j) == Schedule(weights, alive, k)
  {
  }

  lemma {:induction false} FreshIsZero(weights: seq<int>, alive: seq<bool>)
    requires |weights| == |alive|
    ensures Current(weights, alive, 0) == Zeros(|weights|)
  {
  }

  lemma {:induction false} CurrentNext(weights: seq<int>, alive: seq<bool>, k: nat)
    requires |weights| == |alive| && k > 0
    ensures Current(weights, alive, k) == After(Current(weights, alive, k - 1), weights, alive)
  {
  }

  lemma {:induction false} SameDebtSameShare(debt: int, k: int, w: int, e: int, before: int, after: int)
    requires w >= 1
    requires debt == k * e - w * before == (k + w) * e - w * after
    ensures after - before == e
  {
    assert (k + w) * e == k * e + w * e;
    assert w * (after - before - e) == w * after - w * before - w * e;
  }

  /** Hence every window of W consecutive calls, wherever it starts, meets the quota exactly. */
  lemma {:induction false} EveryWindowMeetsQuota(weights: seq<int>, alive: seq<bool>, k: nat, i: nat)
    requires |weights| == |alive| && Fair(weights, alive) && i < |weights|
    ensures Total(weights, alive) >= 1
    ensures Counts(weights, alive, k + Total(weights, alive))[i] - Counts(weights, alive, k)[i]
         == Effective(weights, alive)[i]
  {
    hide *;
    Periodic(weights, alive, k);
    var w := Total(weights, alive);
    CurrentIsDebt(weights, alive, k, i);
    CurrentIsDebt(weights, alive, k + w, i);
    SameDebtSameShare(Current(weights, alive, k)[i], k, w, Effective(weights, alive)[i],
                      Counts(weights, alive, k)[i], Counts(weights, alive, k + w)[i]);
  }
}
