/**
 * The token bucket on values. Times are nanoseconds, tokens are reals. A run is a bucket made at
 * some time and the times of the calls made on it, which the bucket's lock puts in order.
 */
module TokenBucket {

  /** `rate` is in tokens per second. */
  datatype Config = Config(rate: real, burst: int)

  datatype State = State(tokens: real, lastFill: int)

  /** What accrues over a span of nanoseconds. */
  function Credit(c: Config, span: int): real
  {
    span as real / 1e9 * c.rate
  }

  function Create(c: Config, now: int): State
  {
    State(c.burst as real, now)
  }

  function Min(a: real, b: real): real
  {
    if a < b then a else b
  }

  function Refill(c: Config, s: State, now: int): State
  {
    State(Min(c.burst as real, s.tokens + Credit(c, now - s.lastFill)), now)
  }

  predicate Admits(c: Config, s: State, now: int)
  {
    Refill(c, s, now).tokens >= 1.0
  }

  function Use(c: Config, s: State, now: int): State
  {
    var s' := Refill(c, s, now);
    if s'.tokens < 1.0 then s' else s'.(tokens := s'.tokens - 1.0)
  }

  /** How long a rejected caller is told to wait: the time to the next whole token, cut to nanoseconds. */
  function RetryAfter(c: Config, s: State, now: int): int
    requires c.rate > 0.0
  {
    ((1.0 - Refill(c, s, now).tokens) / c.rate * 1e9).Floor
  }

  // --------------------------------------------------------------------- runs

  function Run(c: Config, s: State, ts: seq<int>): State
  {
    if ts == [] then s else Use(c, Run(c, s, ts[..|ts| - 1]), ts[|ts| - 1])
  }

  /** The decision on each call of a run. */
  function Decisions(c: Config, s: State, ts: seq<int>): (ds: seq<bool>)
    ensures |ds| == |ts|
  {
    if ts == [] then []
    else Decisions(c, s, ts[..|ts| - 1]) + [Admits(c, Run(c, s, ts[..|ts| - 1]), ts[|ts| - 1])]
  }

  ghost predicate Timely(t0: int, ts: seq<int>)
  {
    (forall i :: 0 <= i < |ts| ==> t0 <= ts[i]) && (forall i, j :: 0 <= i <= j < |ts| ==> ts[i] <= ts[j])
  }

  /** How many of the calls lo, ..., hi - 1 were admitted. */
  function Count(ds: seq<bool>, lo: nat, hi: nat): (n: nat)
    requires hi <= |ds|
    decreases hi
  {
    if hi <= lo then 0 else Count(ds, lo, hi - 1) + if ds[hi - 1] then 1 else 0
  }

  lemma {:induction false} AdmissionsAreCounted(ds: seq<bool>, lo: nat, hi: nat)
    requires hi <= |ds|
    ensures Count(ds, lo, hi) == |set k | lo <= k < hi && ds[k]|
    decreases hi
  {
    if lo < hi {
      AdmissionsAreCounted(ds, lo, hi - 1);
      var before := set k | lo <= k < hi - 1 && ds[k];
      assert (set k | lo <= k < hi && ds[k]) == if ds[hi - 1] then before + {hi - 1} else before;
    }
  }

  /** What call j leaves for call k: a full bucket then, the credit since, less what was admitted since. */
  function Allowance(c: Config, ts: seq<int>, ds: seq<bool>, j: nat, k: nat): real
    requires j <= k < |ts| == |ds|
  {
    c.burst as real + Credit(c, ts[k] - ts[j]) - Count(ds, j, k) as real
  }

  lemma {:induction false} CreditAdds(c: Config, a: int, b: int)
    ensures Credit(c, a + b) == Credit(c, a) + Credit(c, b)
  {
    assert (a + b) as real == a as real + b as real;
    assert (a + b) as real / 1e9 == a as real / 1e9 + b as real / 1e9;
  }

  lemma {:induction false} CreditGrows(c: Config, a: int, b: int)
    requires c.rate >= 0.0 && a <= b
    ensures Credit(c, a) <= Credit(c, b)
    ensures a >= 0 ==> Credit(c, a) >= 0.0
  {
    assert a as real / 1e9 <= b as real / 1e9;
  }

  /** The bucket just before the k-th call takes its token. */
  function Filled(c: Config, s: State, ts: seq<int>, k: nat): real
    requires k < |ts|
  {
    Refill(c, Run(c, s, ts[..k]), ts[k]).tokens
  }

  lemma {:induction false} RunNext(c: Config, s: State, ts: seq<int>, k: nat)
    requires k < |ts|
    ensures Run(c, s, ts[..k + 1]) == Use(c, Run(c, s, ts[..k]), ts[k])
  {
    assert ts[..k + 1][..k] == ts[..k];
  }

  lemma {:induction false} DecisionAt(c: Config, s: State, ts: seq<int>, k: nat)
    requires k < |ts|
    ensures Decisions(c, s, ts)[k] <==> Filled(c, s, ts, k) >= 1.0
    decreases |ts|
  {
    var n := |ts| - 1;
    if k < n {
      DecisionAt(c, s, ts[..n], k);
      assert ts[..n][..k] == ts[..k];
    }
  }

  lemma {:induction false} FilledNext(c: Config, s: State, ts: seq<int>, k: nat)
    requires k + 1 < |ts|
    ensures Filled(c, s, ts, k + 1)
         == Min(c.burst as real, Filled(c, s, ts, k) - (if Decisions(c, s, ts)[k] then 1.0 else 0.0)
                                 + Credit(c, ts[k + 1] - ts[k]))
  {
    hide Credit, Decisions, Run;
    RunNext(c, s, ts, k);
    DecisionAt(c, s, ts, k);
  }

  lemma {:induction false} AllowanceNext(c: Config, ts: seq<int>, ds: seq<bool>, j: nat, k: nat)
    requires j <= k && k + 1 < |ts| == |ds|
    ensures Allowance(c, ts, ds, j, k + 1)
         == Allowance(c, ts, ds, j, k) - (if ds[k] then 1.0 else 0.0) + Credit(c, ts[k + 1] - ts[k])
  {
    hide Credit;
    CreditAdds(c, ts[k] - ts[j], ts[k + 1] - ts[k]);
    assert Count(ds, j, k + 1) == Count(ds, j, k) + if ds[k] then 1 else 0;
  }

  lemma {:induction false} AllowanceNow(c: Config, ts: seq<int>, ds: seq<bool>, k: nat)
    requires k < |ts| == |ds|
    ensures Allowance(c, ts, ds, k, k) == c.burst as real
  {
  }

  lemma {:induction false} FirstFill(c: Config, t0: int, ts: seq<int>)
    requires c.rate >= 0.0 && |ts| > 0 && t0 <= ts[0]
    ensures Filled(c, Create(c, t0), ts, 0) == c.burst as real
  {
    CreditGrows(c, 0, ts[0] - t0);
    CreditGrows(c, ts[0] - t0, ts[0] - t0);
  }

  /**
   * The bucket remembers one number, and it is the right one: before every call the tokens are the
   * minimum, over all earlier calls j and this one, of what j's full bucket would have left.
   */
  lemma {:induction false} TokensAreTheMinimum(c: Config, t0: int, ts: seq<int>, k: nat)
    requires c.rate >= 0.0 && Timely(t0, ts) && k < |ts|
    ensures forall j {:trigger Allowance(c, ts, Decisions(c, Create(c, t0), ts), j, k)} :: 0 <= j <= k ==>
              Filled(c, Create(c, t0), ts, k) <= Allowance(c, ts, Decisions(c, Create(c, t0), ts), j, k)
    ensures exists j :: 0 <= j <= k &&
              Filled(c, Create(c, t0), ts, k) == Allowance(c, ts, Decisions(c, Create(c, t0), ts), j, k)
    decreases k
  {
    hide *;
    var s := Create(c, t0);
    var ds := Decisions(c, s, ts);
    AllowanceNow(c, ts, ds, k);
    if k == 0 {
      FirstIsTimely(t0, ts);
      FirstFill(c, t0, ts);
      assert Filled(c, s, ts, 0) == Allowance(c, ts, ds, 0, 0);
    } else {
      TokensAreTheMinimum(c, t0, ts, k - 1);
      FilledNext(c, s, ts, k - 1);
      MinIs(c.burst as real, Filled(c, s, ts, k - 1) - (if ds[k - 1] then 1.0 else 0.0) + Credit(c, ts[k] - ts[k - 1]));
      forall j {:trigger Allowance(c, ts, ds, j, k)} | 0 <= j <= k
        ensures Filled(c, s, ts, k) <= Allowance(c, ts, ds, j, k)
      {
        if j < k {
          AllowanceNext(c, ts, ds, j, k - 1);
        }
      }
      var j :| 0 <= j <= k - 1 && Filled(c, s, ts, k - 1) == Allowance(c, ts, ds, j, k - 1);
      AllowanceNext(c, ts, ds, j, k - 1);
      assert Filled(c, s, ts, k) == Allowance(c, ts, ds, j, k) || Filled(c, s, ts, k) == Allowance(c, ts, ds, k, k);
    }
  }

  lemma {:induction false} MinIs(a: real, b: real)
    ensures Min(a, b) <= a && Min(a, b) <= b && (Min(a, b) == a || Min(a, b) == b)
  {
  }

  lemma {:induction false} FirstIsTimely(t0: int, ts: seq<int>)
    requires Timely(t0, ts) && |ts| > 0
    ensures t0 <= ts[0]
  {
  }

  // ---------------------------------------------------- safe, and as permissive as safe can be

  /** Every stretch of calls that ends in an admission keeps within the burst plus what accrued over it. */
  ghost predicate Safe(c: Config, ts: seq<int>, ds: seq<bool>)
    requires |ts| == |ds|
  {
    forall j, k {:trigger Allowance(c, ts, ds, j, k)} :: 0 <= j <= k < |ts| && ds[k] ==>
      Allowance(c, ts, ds, j, k) >= 1.0
  }

  /** A call is admitted exactly when no stretch of calls ending in it would become too full. */
  lemma {:induction false} AdmitsIffEveryStretchAllows(c: Config, t0: int, ts: seq<int>, k: nat)
    requires c.rate >= 0.0 && Timely(t0, ts) && k < |ts|
    ensures Decisions(c, Create(c, t0), ts)[k] <==>
              forall j :: 0 <= j <= k ==> Allowance(c, ts, Decisions(c, Create(c, t0), ts), j, k) >= 1.0
  {
    hide *;
    TokensAreTheMinimum(c, t0, ts, k);
    DecisionAt(c, Create(c, t0), ts, k);
  }

  lemma {:induction false} BucketIsSafe(c: Config, t0: int, ts: seq<int>)
    requires c.rate >= 0.0 && Timely(t0, ts)
    ensures Safe(c, ts, Decisions(c, Create(c, t0), ts))
  {
    var ds := Decisions(c, Create(c, t0), ts);
    forall j, k {:trigger Allowance(c, ts, ds, j, k)} | 0 <= j <= k < |ts| && ds[k]
      ensures Allowance(c, ts, ds, j, k) >= 1.0
    {
      AdmitsIffEveryStretchAllows(c, t0, ts, k);
    }
  }

  /** In particular, no stretch of calls admits more than the burst plus the rate times its length. */
  lemma {:induction false} StretchBound(c: Config, ts: seq<int>, ds: seq<bool>, j: nat, k: nat)
    requires c.rate >= 0.0 && c.burst >= 0 && |ts| == |ds| && Safe(c, ts, ds)
    requires j <= k < |ts| && Timely(ts[0], ts)
    ensures Count(ds, j, k + 1) as real <= c.burst as real + Credit(c, ts[k] - ts[j])
    decreases k
  {
    hide Credit;
    CreditGrows(c, ts[k] - ts[j], ts[k] - ts[j]);
    if ds[k] {
      assert Allowance(c, ts, ds, j, k) >= 1.0;
    } else if j < k {
      StretchBound(c, ts, ds, j, k - 1);
      CreditGrows(c, ts[k - 1] - ts[j], ts[k] - ts[j]);
    }
  }

  lemma {:induction false} CountSplits(ds: seq<bool>, lo: nat, mid: nat, hi: nat)
    requires lo <= mid <= hi <= |ds|
    ensures Count(ds, lo, hi) == Count(ds, lo, mid) + Count(ds, mid, hi)
    decreases hi
  {
    if mid < hi {
      CountSplits(ds, lo, mid, hi - 1);
    }
  }

  /**
   * No safe policy, however clever, has admitted more calls of the same run at any point than the
   * bucket has: the bucket is the most permissive safe limiter.
   */
  lemma {:induction false} NoSafePolicyAdmitsMore(c: Config, t0: int, ts: seq<int>, other: seq<bool>, k: nat)
    requires c.rate >= 0.0 && Timely(t0, ts)
    requires |other| == |ts| && Safe(c, ts, other) && k <= |ts|
    ensures Count(other, 0, k) <= Count(Decisions(c, Create(c, t0), ts), 0, k)
    decreases k
  {
    var ds := Decisions(c, Create(c, t0), ts);
    if k > 0 {
      NoSafePolicyAdmitsMore(c, t0, ts, other, k - 1);
      if other[k - 1] && !ds[k - 1] {
        AdmitsIffEveryStretchAllows(c, t0, ts, k - 1);
        var j :| 0 <= j <= k - 1 && Allowance(c, ts, ds, j, k - 1) < 1.0;
        NoSafePolicyAdmitsMore(c, t0, ts, other, j);
        StrictlyBehind(c, ts, ds, other, j, k - 1);
      }
    }
  }

  lemma {:induction false} StrictlyBehind(c: Config, ts: seq<int>, ds: seq<bool>, other: seq<bool>, j: nat, k: nat)
    requires |ts| == |ds| == |other| && j <= k < |ts|
    requires Allowance(c, ts, ds, j, k) < 1.0 && Safe(c, ts, other) && other[k]
    requires Count(other, 0, j) <= Count(ds, 0, j)
    ensures Count(other, 0, k) < Count(ds, 0, k)
  {
    hide Credit, Count;
    assert Allowance(c, ts, other, j, k) >= 1.0;
    CountSplits(ds, 0, j, k);
    CountSplits(other, 0, j, k);
  }

  // --------------------------------------------------------------- the advice to a rejected caller

  /** Rejected calls take no tokens, so a run of them refills exactly as one refill would. */
  lemma {:induction false} RejectedRunIsOneRefill(c: Config, s: State, ts: seq<int>)
    requires c.rate >= 0.0 && |ts| > 0 && Timely(s.lastFill, ts)
    requires forall i :: 0 <= i < |ts| ==> !Decisions(c, s, ts)[i]
    ensures Run(c, s, ts) == Refill(c, s, ts[|ts| - 1])
    decreases |ts|
  {
    var n := |ts| - 1;
    if n > 0 {
      var ds := Decisions(c, s, ts[..n]);
      forall i | 0 <= i < n ensures !ds[i] {
        assert Decisions(c, s, ts)[i] == ds[i];
      }
      RejectedRunIsOneRefill(c, s, ts[..n]);
      RefillsCompose(c, s, ts[n - 1], ts[n]);
    } else {
      assert ts[..0] == [];
    }
    assert !Decisions(c, s, ts)[n];
  }

  lemma {:induction false} RefillsCompose(c: Config, s: State, mid: int, now: int)
    requires c.rate >= 0.0 && s.lastFill <= mid <= now
    ensures Refill(c, Refill(c, s, mid), now) == Refill(c, s, now)
  {
    CreditAdds(c, mid - s.lastFill, now - mid);
    CreditGrows(c, 0, now - mid);
    CreditGrows(c, now - mid, now - mid);
  }

  /** The exact wait in nanoseconds for the next whole token, before it is cut down. */
  function ExactWait(c: Config, tokens: real): real
    requires c.rate > 0.0
  {
    (1.0 - tokens) / c.rate * 1e9
  }

  lemma {:induction false} CreditCoversIff(c: Config, tokens: real, span: int)
    requires c.rate > 0.0
    ensures tokens + Credit(c, span) >= 1.0 <==> span as real >= ExactWait(c, tokens)
  {
    var x, y := span as real / 1e9, (1.0 - tokens) / c.rate;
    assert y * c.rate == 1.0 - tokens;
    RealScale(x, y, c.rate);
    RealScale(y, x, c.rate);
    assert x * 1e9 == span as real;
  }

  lemma {:induction false} RealScale(a: real, b: real, k: real)
    requires k > 0.0
    ensures a >= b ==> a * k >= b * k
    ensures a < b ==> a * k < b * k
  {
  }

  /** A retry is admitted exactly when the exact wait is over, however many rejected retries came first. */
  lemma {:induction false} RetryAdmittedIff(c: Config, s: State, now: int, retries: seq<int>, t: int)
    requires c.rate > 0.0 && c.burst >= 1 && s.lastFill <= now && !Admits(c, s, now)
    requires Timely(now, retries + [t])
    requires forall i :: 0 <= i < |retries| ==> !Decisions(c, Use(c, s, now), retries)[i]
    ensures Admits(c, Run(c, Use(c, s, now), retries), t)
       <==> (t - now) as real >= ExactWait(c, Refill(c, s, now).tokens)
  {
    var s' := Use(c, s, now);
    assert (retries + [t])[|retries|] == t;
    if retries != [] {
      forall i, j | 0 <= i <= j < |retries| ensures now <= retries[i] <= retries[j] <= t {
        assert (retries + [t])[i] == retries[i] && (retries + [t])[j] == retries[j];
      }
      RejectedRunIsOneRefill(c, s', retries);
      RefillsCompose(c, s', retries[|retries| - 1], t);
    }
    CreditCoversIff(c, s'.tokens, t - now);
  }

  /** What a rejected caller is told is the last whole nanosecond at which the bucket has no more than one token. */
  lemma {:induction false} RetryAfterIsFloor(c: Config, s: State, now: int)
    requires c.rate > 0.0
    ensures var tokens, wait := Refill(c, s, now).tokens, RetryAfter(c, s, now);
            tokens + Credit(c, wait) <= 1.0 < tokens + Credit(c, wait + 1)
  {
    var tokens, wait := Refill(c, s, now).tokens, RetryAfter(c, s, now);
    assert wait as real <= ExactWait(c, tokens) < (wait + 1) as real;
    CreditAtWait(c, tokens);
    CreditScales(c, wait, ExactWait(c, tokens));
    CreditScales(c, wait + 1, ExactWait(c, tokens));
  }

  lemma {:induction false} CreditAtWait(c: Config, tokens: real)
    requires c.rate > 0.0
    ensures ExactWait(c, tokens) / 1e9 * c.rate == 1.0 - tokens
  {
  }

  lemma {:induction false} CreditScales(c: Config, span: int, x: real)
    requires c.rate > 0.0
    ensures span as real <= x ==> Credit(c, span) <= x / 1e9 * c.rate
    ensures span as real > x ==> Credit(c, span) > x / 1e9 * c.rate
  {
    RealScale(x / 1e9, span as real / 1e9, c.rate);
    RealScale(span as real / 1e9, x / 1e9, c.rate);
  }

  /**
   * The advice is tight to the nanosecond: every retry before now + RetryAfter is rejected, and the
   * first one made a nanosecond or more past it is admitted.
   */
  lemma {:induction false} RetryAfterIsTight(c: Config, s: State, now: int, retries: seq<int>, t: int)
    requires c.rate > 0.0 && c.burst >= 1 && s.lastFill <= now && !Admits(c, s, now)
    requires Timely(now, retries + [t])
    requires forall i :: 0 <= i < |retries| ==> !Decisions(c, Use(c, s, now), retries)[i]
    ensures RetryAfter(c, s, now) >= 0
    ensures t < now + RetryAfter(c, s, now) ==> !Admits(c, Run(c, Use(c, s, now), retries), t)
    ensures t > now + RetryAfter(c, s, now) ==> Admits(c, Run(c, Use(c, s, now), retries), t)
  {
    RetryAdmittedIff(c, s, now, retries, t);
    var x := ExactWait(c, Refill(c, s, now).tokens);
    assert x.Floor as real <= x < (x.Floor + 1) as real;
    CreditCoversIff(c, Refill(c, s, now).tokens, 0);
  }

  /** So a caller who only retries too early is turned away every time. */
  lemma {:induction false} EarlyRetriesAllRejected(c: Config, s: State, now: int, retries: seq<int>)
    requires c.rate > 0.0 && c.burst >= 1 && s.lastFill <= now && !Admits(c, s, now)
    requires Timely(now, retries)
    requires forall i :: 0 <= i < |retries| ==> retries[i] < now + RetryAfter(c, s, now)
    ensures forall i :: 0 <= i < |retries| ==> !Decisions(c, Use(c, s, now), retries)[i]
    decreases |retries|
  {
    if retries != [] {
      var n := |retries| - 1;
      EarlyRetriesAllRejected(c, s, now, retries[..n]);
      assert retries[..n] + [retries[n]] == retries;
      RetryAfterIsTight(c, s, now, retries[..n], retries[n]);
    }
  }

  /** A burst left at zero admits nothing, ever; any positive burst admits the first call at once. */
  lemma {:induction false} BurstDecides(c: Config, t0: int, ts: seq<int>, k: nat)
    requires c.rate >= 0.0 && Timely(t0, ts) && k < |ts|
    ensures c.burst < 1 ==> !Decisions(c, Create(c, t0), ts)[k]
    ensures Decisions(c, Create(c, t0), ts)[0] <==> c.burst >= 1
  {
    DecisionAt(c, Create(c, t0), ts, 0);
    FirstFill(c, t0, ts);
    DecisionAt(c, Create(c, t0), ts, k);
  }
}
