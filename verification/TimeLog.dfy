/** Time-stamped lists, pruned from the front: the shape of both the breaker window and the limiter window. */
module TimeLog {

  /** How many leading entries lie before the cutoff: where the eviction loop stops. */
  function Stale<T>(xs: seq<T>, at: T -> int, cutoff: int): (n: nat)
    ensures n <= |xs|
    ensures forall i :: 0 <= i < n ==> at(xs[i]) < cutoff
    ensures n < |xs| ==> at(xs[n]) >= cutoff
  {
    if xs == [] || at(xs[0]) >= cutoff then 0 else 1 + Stale(xs[1..], at, cutoff)
  }

  /** A loop that stopped at i, with only stale entries behind it, stopped in the right place. */
  lemma {:induction false} StaleIs<T>(xs: seq<T>, at: T -> int, cutoff: int, i: nat)
    requires i <= |xs| && (forall k :: 0 <= k < i ==> at(xs[k]) < cutoff)
    requires i < |xs| ==> at(xs[i]) >= cutoff
    ensures Stale(xs, at, cutoff) == i
  {
  }

  /** The reference: every entry at or after the cutoff, wherever it stands in the list. */
  function Since<T>(xs: seq<T>, at: T -> int, cutoff: int): (ys: seq<T>)
    ensures |ys| <= |xs|
  {
    if xs == [] then []
    else
      var ys := Since(xs[..|xs| - 1], at, cutoff);
      if at(xs[|xs| - 1]) >= cutoff then ys + [xs[|xs| - 1]] else ys
  }

  ghost predicate Sorted<T>(xs: seq<T>, at: T -> int)
  {
    forall i, j :: 0 <= i < j < |xs| ==> at(xs[i]) <= at(xs[j])
  }

  lemma {:induction false} SinceAppend<T>(xs: seq<T>, x: T, at: T -> int, cutoff: int)
    ensures Since(xs + [x], at, cutoff) == Since(xs, at, cutoff) + if at(x) >= cutoff then [x] else []
  {
    assert (xs + [x])[..|xs|] == xs;
  }

  lemma {:induction false} SinceKeepsAll<T>(xs: seq<T>, at: T -> int, cutoff: int)
    requires forall i :: 0 <= i < |xs| ==> at(xs[i]) >= cutoff
    ensures Since(xs, at, cutoff) == xs
    decreases |xs|
  {
    if xs != [] {
      SinceKeepsAll(xs[..|xs| - 1], at, cutoff);
      assert xs == xs[..|xs| - 1] + [xs[|xs| - 1]];
    }
  }

  lemma {:induction false} SinceKeepsNone<T>(xs: seq<T>, at: T -> int, cutoff: int)
    requires forall i :: 0 <= i < |xs| ==> at(xs[i]) < cutoff
    ensures Since(xs, at, cutoff) == []
    decreases |xs|
  {
    if xs != [] {
      SinceKeepsNone(xs[..|xs| - 1], at, cutoff);
    }
  }

  lemma {:induction false} SinceConcat<T>(xs: seq<T>, ys: seq<T>, at: T -> int, cutoff: int)
    ensures Since(xs + ys, at, cutoff) == Since(xs, at, cutoff) + Since(ys, at, cutoff)
    decreases |ys|
  {
    if ys == [] {
      assert xs + ys == xs;
    } else {
      hide Since;
      var init, y := ys[..|ys| - 1], ys[|ys| - 1];
      assert ys == init + [y] && xs + ys == xs + init + [y];
      SinceConcat(xs, init, at, cutoff);
      SinceAppend(xs + init, y, at, cutoff);
      SinceAppend(init, y, at, cutoff);
    }
  }

  /** On a sorted list, dropping the stale prefix is the same as filtering the whole list. */
  lemma {:induction false} EvictionIsFilter<T>(xs: seq<T>, at: T -> int, cutoff: int)
    requires Sorted(xs, at)
    ensures xs[Stale(xs, at, cutoff)..] == Since(xs, at, cutoff)
  {
    hide Since, Stale;
    var n := Stale(xs, at, cutoff);
    assert xs == xs[..n] + xs[n..];
    SinceConcat(xs[..n], xs[n..], at, cutoff);
    SinceKeepsNone(xs[..n], at, cutoff);
    forall i | 0 <= i < |xs[n..]| ensures at(xs[n..][i]) >= cutoff {
      assert xs[n..][i] == xs[n + i] && at(xs[n]) >= cutoff;
    }
    SinceKeepsAll(xs[n..], at, cutoff);
  }

  /** Pruning earlier with an older cutoff loses nothing that a later prune would have kept. */
  lemma {:induction false} EarlierPruneIsHarmless<T>(xs: seq<T>, at: T -> int, older: int, cutoff: int)
    requires older <= cutoff
    ensures Since(Since(xs, at, older), at, cutoff) == Since(xs, at, cutoff)
    decreases |xs|
  {
    if xs != [] {
      var n := |xs| - 1;
      EarlierPruneIsHarmless(xs[..n], at, older, cutoff);
      SinceAppend(Since(xs[..n], at, older), xs[n], at, cutoff);
    }
  }

  /** Filtering keeps only entries of the list, in an order that stays sorted. */
  lemma {:induction false} SinceIsSorted<T>(xs: seq<T>, at: T -> int, cutoff: int)
    requires Sorted(xs, at)
    ensures Sorted(Since(xs, at, cutoff), at)
    ensures forall y :: y in Since(xs, at, cutoff) ==> y in xs
  {
    EvictionIsFilter(xs, at, cutoff);
    var n := Stale(xs, at, cutoff);
    forall y | y in xs[n..] ensures y in xs {
      var i :| 0 <= i < |xs[n..]| && xs[n..][i] == y;
      assert xs[n + i] == y;
    }
  }
}
