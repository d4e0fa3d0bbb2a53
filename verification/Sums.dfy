/** Sums over finite sequences of integers, and the comparisons the balancers need. */
module Sums {

  function Sum(s: seq<int>): int
  {
    if s == [] then 0 else Sum(s[..|s| - 1]) + s[|s| - 1]
  }

  function Zeros(n: nat): (z: seq<int>)
    ensures |z| == n && forall i :: 0 <= i < n ==> z[i] == 0
  {
    seq(n, i => 0)
  }

  function Plus(a: seq<int>, b: seq<int>): (c: seq<int>)
    requires |a| == |b|
    ensures |c| == |a| && forall i :: 0 <= i < |c| ==> c[i] == a[i] + b[i]
  {
    seq(|a|, i requires 0 <= i < |a| => a[i] + b[i])
  }

  lemma {:induction false} SumZeros(s: seq<int>)
    requires forall i :: 0 <= i < |s| ==> s[i] == 0
    ensures Sum(s) == 0
  {
    if s != [] {
      SumZeros(s[..|s| - 1]);
    }
  }

  lemma {:induction false} SumPlus(a: seq<int>, b: seq<int>)
    requires |a| == |b|
    ensures Sum(Plus(a, b)) == Sum(a) + Sum(b)
  {
    if a != [] {
      var n := |a| - 1;
      assert Plus(a, b)[..n] == Plus(a[..n], b[..n]);
      SumPlus(a[..n], b[..n]);
    }
  }

  /** Changing one element changes the sum by the difference. */
  lemma {:induction false} SumUpdate(s: seq<int>, i: nat, v: int)
    requires i < |s|
    ensures Sum(s[i := v]) == Sum(s) - s[i] + v
  {
    var n := |s| - 1;
    if i == n {
      assert s[i := v][..n] == s[..n];
    } else {
      assert s[i := v][..n] == s[..n][i := v];
      SumUpdate(s[..n], i, v);
    }
  }

  /** Sums are monotone, and strictly so at any place where the terms differ. */
  lemma {:induction false} SumDominates(a: seq<int>, b: seq<int>)
    requires |a| == |b|
    requires forall i :: 0 <= i < |a| ==> a[i] <= b[i]
    ensures Sum(a) <= Sum(b)
    ensures Sum(a) == Sum(b) ==> a == b
  {
    if a != [] {
      var n := |a| - 1;
      SumDominates(a[..n], b[..n]);
      assert a == a[..n] + [a[n]] && b == b[..n] + [b[n]];
    }
  }

  /** Raising every term by its gain and taking the whole gain back at one place conserves the sum. */
  lemma {:induction false} TransferConserves(s: seq<int>, gain: seq<int>, b: nat)
    requires |s| == |gain| && b < |s|
    ensures Sum(Plus(s, gain)[b := Plus(s, gain)[b] - Sum(gain)]) == Sum(s)
  {
    SumPlus(s, gain);
    SumUpdate(Plus(s, gain), b, Plus(s, gain)[b] - Sum(gain));
  }

  lemma {:induction false} SumScale(ones: seq<int>, scaled: seq<int>, factor: int)
    requires |ones| == |scaled|
    requires forall i :: 0 <= i < |ones| ==> scaled[i] == ones[i] * factor
    ensures Sum(scaled) == Sum(ones) * factor
  {
    if ones != [] {
      var n := |ones| - 1;
      SumScale(ones[..n], scaled[..n], factor);
      assert (Sum(ones[..n]) + ones[n]) * factor == Sum(ones[..n]) * factor + ones[n] * factor;
    }
  }

  lemma {:induction false} SumTakeNext(s: seq<int>, i: nat)
    requires i < |s|
    ensures Sum(s[..i + 1]) == Sum(s[..i]) + s[i]
  {
    assert s[..i + 1][..i] == s[..i];
  }

  /** The first of the smallest among the first m. */
  ghost predicate FirstLeast(loads: seq<int>, m: nat, b: nat)
  {
    && b < m <= |loads|
    && (forall a :: 0 <= a < m ==> loads[b] <= loads[a])
    && forall a :: 0 <= a < b ==> loads[b] < loads[a]
  }
}
