/**
 * The Redis script over one sorted set whose members are their own scores, in milliseconds of one
 * clock. A member is a millisecond, so admissions made in the same millisecond collapse into one.
 */
module RedisWindow {
  import opened Collections

  /** `limit` requests per `window` milliseconds, as the configuration means it. */
  datatype Config = Config(limit: int, window: int)

  /** The key: its members, and the time at which Redis drops it (the expiry set by the last admission). */
  datatype Key = Key(members: set<int>, deadline: int)

  const Missing := Key({}, 0)

  function Unexpired(members: set<int>, cutoff: int): set<int>
  {
    set m | m in members && m > cutoff
  }

  /** Whole seconds covering the window, in milliseconds. */
  function Lifetime(c: Config): int
  {
    (c.window + 999) / 1000 * 1000
  }

  predicate Admits(c: Config, members: set<int>, now: int)
  {
    |Unexpired(members, now - c.window)| < c.limit
  }

  /** The script on the members it finds: prune, count, and add this millisecond if there is room. */
  function Script(c: Config, members: set<int>, now: int): set<int>
  {
    var kept := Unexpired(members, now - c.window);
    if |kept| < c.limit then kept + {now} else kept
  }

  /** Redis drops an expired key before the script sees it; an admission renews the expiry. */
  function Call(c: Config, k: Key, now: int): Key
  {
    var members := if now >= k.deadline then {} else k.members;
    Key(Script(c, members, now), if Admits(c, members, now) then now + Lifetime(c) else k.deadline)
  }

  predicate CallAdmits(c: Config, k: Key, now: int)
  {
    Admits(c, if now >= k.deadline then {} else k.members, now)
  }

  function Run(c: Config, ts: seq<int>): Key
  {
    if ts == [] then Missing else Call(c, Run(c, ts[..|ts| - 1]), ts[|ts| - 1])
  }

  /** The reference: the distinct milliseconds in which anything was admitted, kept for ever. */
  function Admitted(c: Config, ts: seq<int>): set<int>
  {
    if ts == [] then {}
    else
      var a, now := Admitted(c, ts[..|ts| - 1]), ts[|ts| - 1];
      if Admits(c, a, now) then a + {now} else a
  }

  ghost predicate Sane(c: Config)
  {
    c.limit >= 1 && c.window >= 1
  }

  /** The key holds the recent admitted milliseconds, and outlives every one of them that still counts. */
  ghost predicate Holds(c: Config, k: Key, admitted: set<int>, last: int)
  {
    && (forall m :: m in admitted ==> m <= last && m + c.window <= k.deadline)
    && k.members == Unexpired(admitted, last - c.window)
  }

  lemma {:induction false} LifetimeCovers(c: Config)
    requires c.window >= 1
    ensures c.window <= Lifetime(c) < c.window + 1000 && Lifetime(c) % 1000 == 0
  {
    assert (c.window + 999) == (c.window + 999) / 1000 * 1000 + (c.window + 999) % 1000;
  }

  lemma {:induction false} CallHolds(c: Config, k: Key, admitted: set<int>, last: int, now: int)
    requires Sane(c) && Holds(c, k, admitted, last) && last <= now
    ensures CallAdmits(c, k, now) <==> Admits(c, admitted, now)
    ensures Holds(c, Call(c, k, now), if Admits(c, admitted, now) then admitted + {now} else admitted, now)
  {
    var members := if now >= k.deadline then {} else k.members;
    assert Unexpired(members, now - c.window) == Unexpired(admitted, now - c.window);
    LifetimeCovers(c);
    assert Unexpired(admitted + {now}, now - c.window) == Unexpired(admitted, now - c.window) + {now};
  }

  /**
   * In every run the set is exactly the distinct admitted milliseconds of the last window, and
   * letting the key expire never changes anything: the decisions are those of a key kept for ever.
   */
  lemma {:induction false} SetIsRecentMilliseconds(c: Config, ts: seq<int>)
    requires Sane(c) && Ascending(ts) && ts != []
    ensures Holds(c, Run(c, ts), Admitted(c, ts), ts[|ts| - 1])
    ensures CallAdmits(c, Run(c, ts[..|ts| - 1]), ts[|ts| - 1])
       <==> Admits(c, Admitted(c, ts[..|ts| - 1]), ts[|ts| - 1])
    decreases |ts|
  {
    var n := |ts| - 1;
    if n == 0 {
      assert ts[..0] == [];
      FirstCall(c, ts[0]);
    } else {
      SetIsRecentMilliseconds(c, ts[..n]);
      CallHolds(c, Run(c, ts[..n]), Admitted(c, ts[..n]), ts[n - 1], ts[n]);
    }
  }

  lemma {:induction false} FirstCall(c: Config, now: int)
    requires Sane(c)
    ensures CallAdmits(c, Missing, now) && Admits(c, {}, now)
    ensures Holds(c, Call(c, Missing, now), {now}, now)
  {
    LifetimeCovers(c);
    assert Unexpired({}, now - c.window) == {};
    assert Unexpired({now}, now - c.window) == {now};
  }

  function Between(s: set<int>, lo: int, hi: int): set<int>
  {
    set m | m in s && lo < m <= hi
  }

  /** At most `limit` distinct milliseconds admit anything in any half-open interval of the window's length. */
  lemma {:induction false} MillisecondsAreBounded(c: Config, ts: seq<int>, lo: int)
    requires Sane(c) && Ascending(ts)
    ensures |Between(Admitted(c, ts), lo, lo + c.window)| <= c.limit
    decreases |ts|
  {
    if ts == [] {
      assert Between({}, lo, lo + c.window) == {};
    } else {
      var n := |ts| - 1;
      var a, now := Admitted(c, ts[..n]), ts[n];
      MillisecondsAreBounded(c, ts[..n], lo);
      if Admits(c, a, now) {
        AdmittedIsPast(c, ts[..n], now);
        IntervalStep(c, a, now, lo);
      }
    }
  }

  lemma {:induction false} IntervalStep(c: Config, a: set<int>, now: int, lo: int)
    requires Sane(c) && Admits(c, a, now) && forall m :: m in a ==> m <= now
    requires |Between(a, lo, lo + c.window)| <= c.limit
    ensures |Between(a + {now}, lo, lo + c.window)| <= c.limit
  {
    var before, after := Between(a, lo, lo + c.window), Between(a + {now}, lo, lo + c.window);
    if lo < now <= lo + c.window {
      Fewer(before, Unexpired(a, now - c.window));
      assert after == before + {now};
    } else {
      assert after == before;
    }
  }

  lemma {:induction false} AdmittedIsPast(c: Config, ts: seq<int>, now: int)
    requires forall i :: 0 <= i < |ts| ==> ts[i] <= now
    ensures forall m :: m in Admitted(c, ts) ==> m <= now
    decreases |ts|
  {
    if ts != [] {
      AdmittedIsPast(c, ts[..|ts| - 1], now);
    }
  }

  /** What a rejected caller is told: when the oldest counted millisecond leaves. */
  function RetryAfter(c: Config, oldest: int, now: int): int
  {
    oldest + c.window - now
  }

  lemma {:induction false} FullUntilOldestLeaves(c: Config, a: set<int>, now: int, oldest: int, t: int)
    requires c.limit >= 1 && c.window >= 1 && now <= t && |Unexpired(a, now - c.window)| == c.limit
    requires var kept := Unexpired(a, now - c.window); oldest in kept && forall m :: m in kept ==> oldest <= m
    ensures Admits(c, a, t) <==> t >= now + RetryAfter(c, oldest, now)
  {
    var kept, later := Unexpired(a, now - c.window), Unexpired(a, t - c.window);
    if t < oldest + c.window {
      assert later == kept;
    } else {
      Fewer(later, kept - {oldest});
    }
  }

  lemma {:induction false} FullAtMost(c: Config, ts: seq<int>, now: int)
    requires Sane(c) && Ascending(ts + [now])
    ensures |Unexpired(Admitted(c, ts), now - c.window)| <= c.limit
  {
    forall i | 0 <= i < |ts| ensures ts[i] <= now {
      assert (ts + [now])[i] <= (ts + [now])[|ts|];
    }
    assert Ascending(ts) by {
      forall i, j | 0 <= i <= j < |ts| ensures ts[i] <= ts[j] {
        assert (ts + [now])[i] <= (ts + [now])[j];
      }
    }
    MillisecondsAreBounded(c, ts, now - c.window);
    AdmittedIsPast(c, ts, now);
    var lo := now - c.window;
    assert Unexpired(Admitted(c, ts), lo) == Between(Admitted(c, ts), lo, lo + c.window);
  }

  /** What the key decides next is what the whole set of admitted milliseconds would. */
  lemma {:induction false} KeyDecides(c: Config, ts: seq<int>, now: int)
    requires Sane(c) && Ascending(ts + [now])
    ensures CallAdmits(c, Run(c, ts), now) <==> Admits(c, Admitted(c, ts), now)
    ensures !CallAdmits(c, Run(c, ts), now) ==>
              Call(c, Run(c, ts), now).members == Unexpired(Admitted(c, ts), now - c.window)
  {
    assert (ts + [now])[..|ts|] == ts;
    SetIsRecentMilliseconds(c, ts + [now]);
  }

  lemma {:induction false} EarlyRetriesAddNothing(c: Config, ts: seq<int>, now: int, oldest: int, retries: seq<int>)
    requires Sane(c) && Ascending([now] + retries) && |Unexpired(Admitted(c, ts), now - c.window)| == c.limit
    requires var kept := Unexpired(Admitted(c, ts), now - c.window);
             oldest in kept && forall m :: m in kept ==> oldest <= m
    requires forall i :: 0 <= i < |retries| ==> retries[i] < now + RetryAfter(c, oldest, now)
    ensures Admitted(c, ts + [now] + retries) == Admitted(c, ts)
    decreases |retries|
  {
    var all := ts + [now] + retries;
    if retries == [] {
      assert all == ts + [now] && all[..|ts|] == ts;
    } else {
      var n := |retries| - 1;
      assert Ascending([now] + retries[..n]) by {
        forall i, j | 0 <= i <= j < n + 1 ensures ([now] + retries[..n])[i] <= ([now] + retries[..n])[j] {
          assert ([now] + retries)[i] <= ([now] + retries)[j];
        }
      }
      EarlyRetriesAddNothing(c, ts, now, oldest, retries[..n]);
      assert all[..|all| - 1] == ts + [now] + retries[..n] && ([now] + retries)[0] <= ([now] + retries)[n + 1];
      FullUntilOldestLeaves(c, Admitted(c, ts), now, oldest, retries[n]);
    }
  }

  /**
   * The advice is exact. After a rejection and any retries before now + RetryAfter, the key, pruned by
   * each of them and perhaps expired, admits a call if and only if now + RetryAfter has come.
   */
  lemma {:induction false} RetryAfterIsExact(c: Config, ts: seq<int>, now: int, oldest: int, retries: seq<int>, t: int)
    requires Sane(c) && Ascending(ts + [now]) && Ascending([now] + retries) && Ascending(ts + [now] + retries + [t])
    requires !CallAdmits(c, Run(c, ts), now)
    requires var kept := Call(c, Run(c, ts), now).members; oldest in kept && forall m :: m in kept ==> oldest <= m
    requires forall i :: 0 <= i < |retries| ==> retries[i] < now + RetryAfter(c, oldest, now)
    ensures CallAdmits(c, Run(c, ts + [now] + retries), t) <==> t >= now + RetryAfter(c, oldest, now)
  {
    var all := ts + [now] + retries;
    assert (all + [t])[|ts|] == now && (all + [t])[|all|] == t;
    KeyDecides(c, ts, now);
    FullAtMost(c, ts, now);
    EarlyRetriesAddNothing(c, ts, now, oldest, retries);
    KeyDecides(c, all, t);
    FullUntilOldestLeaves(c, Admitted(c, ts), now, oldest, t);
  }

  // ---------------------------------------------- requests are another matter

  /** How many requests, not milliseconds, were admitted in the window (lo, lo + window]. */
  function Requests(c: Config, ts: seq<int>, lo: int): (n: nat)
    ensures n <= |ts|
  {
    if ts == [] then 0
    else
      var n, now := |ts| - 1, ts[|ts| - 1];
      Requests(c, ts[..n], lo) + if lo < now <= lo + c.window && CallAdmits(c, Run(c, ts[..n]), now) then 1 else 0
  }

  predicate IsAdmitted(c: Config, ts: seq<int>, lo: int, i: nat)
    requires i < |ts|
  {
    lo < ts[i] <= lo + c.window && CallAdmits(c, Run(c, ts[..i]), ts[i])
  }

  /** Which requests of a run are admitted in the window (lo, lo + window]. */
  function AdmittedAt(c: Config, ts: seq<int>, lo: int): set<nat>
  {
    set i | 0 <= i < |ts| && IsAdmitted(c, ts, lo, i)
  }

  lemma {:induction false} RequestsAreCounted(c: Config, ts: seq<int>, lo: int)
    ensures Requests(c, ts, lo) == |AdmittedAt(c, ts, lo)|
    decreases |ts|
  {
    hide IsAdmitted, Requests;
    if ts == [] {
      NoRequests(c, lo);
      assert AdmittedAt(c, ts, lo) == {};
    } else {
      var n := |ts| - 1;
      RequestsAreCounted(c, ts[..n], lo);
      forall i | 0 <= i < n ensures IsAdmitted(c, ts[..n], lo, i) == IsAdmitted(c, ts, lo, i) {
        PrefixAgrees(c, ts, lo, i);
      }
      RequestHere(c, ts, lo);
      assert AdmittedAt(c, ts, lo) == AdmittedAt(c, ts[..n], lo) + if IsAdmitted(c, ts, lo, n) then {n} else {};
    }
  }

  lemma {:induction false} NoRequests(c: Config, lo: int)
    ensures Requests(c, [], lo) == 0
  {
  }

  lemma {:induction false} PrefixAgrees(c: Config, ts: seq<int>, lo: int, i: nat)
    requires i < |ts| - 1
    ensures IsAdmitted(c, ts[..|ts| - 1], lo, i) == IsAdmitted(c, ts, lo, i)
  {
    assert ts[..|ts| - 1][..i] == ts[..i];
  }

  lemma {:induction false} RequestHere(c: Config, ts: seq<int>, lo: int)
    requires ts != []
    ensures var n := |ts| - 1;
            Requests(c, ts, lo) == Requests(c, ts[..n], lo) + if IsAdmitted(c, ts, lo, n) then 1 else 0
  {
  }

  /** The promise of the configuration: at most `limit` requests in any window, for every run. */
  ghost predicate LimitsRequests(c: Config)
  {
    forall ts, lo {:trigger Requests(c, ts, lo)} :: Ascending(ts) ==> Requests(c, ts, lo) <= c.limit
  }

  /** One more call, in terms of the admitted milliseconds. */
  lemma {:induction false} RequestsNext(c: Config, ts: seq<int>, lo: int)
    requires Sane(c) && Ascending(ts) && ts != []
    ensures var n, now := |ts| - 1, ts[|ts| - 1];
            Requests(c, ts, lo) == Requests(c, ts[..n], lo)
              + if lo < now <= lo + c.window && Admits(c, Admitted(c, ts[..n]), now) then 1 else 0
  {
    hide Run, Admitted, Admits, CallAdmits;
    SetIsRecentMilliseconds(c, ts);
  }

  /** With room for two, any number of requests in one millisecond is admitted. */
  lemma {:induction false} BurstInOneMillisecond(c: Config, now: int, n: nat)
    requires c.limit >= 2 && c.window >= 1
    ensures var ts := Repeat(now, n);
            && Admitted(c, ts) == (if n == 0 then {} else {now})
            && Requests(c, ts, now - 1) == n
    decreases n
  {
    hide Run, CallAdmits;
    var ts := Repeat(now, n);
    if n > 0 {
      assert ts[..n - 1] == Repeat(now, n - 1);
      BurstInOneMillisecond(c, now, n - 1);
      RequestsNext(c, ts, now - 1);
      var kept := Unexpired(Admitted(c, ts[..n - 1]), now - c.window);
      assert kept == if n == 1 then {} else {now};
    }
  }

  /** The admitted milliseconds of a window, after one more call. */
  lemma {:induction false} MillisecondsNext(c: Config, a: set<int>, now: int, lo: int)
    requires now !in a
    ensures |Between(a + {now}, lo, lo + c.window)|
         == |Between(a, lo, lo + c.window)| + if lo < now <= lo + c.window then 1 else 0
  {
    var before, after := Between(a, lo, lo + c.window), Between(a + {now}, lo, lo + c.window);
    if lo < now <= lo + c.window {
      assert after == before + {now};
    } else {
      assert after == before;
    }
  }

  /** While every admission falls in a millisecond of its own, requests and milliseconds count the same. */
  lemma {:induction false} RequestsAreMilliseconds(c: Config, ts: seq<int>, lo: int)
    requires Sane(c) && Ascending(ts)
    requires c.limit == 1 || forall i, j :: 0 <= i < j < |ts| ==> ts[i] < ts[j]
    ensures Requests(c, ts, lo) == |Between(Admitted(c, ts), lo, lo + c.window)|
    decreases |ts|
  {
    if ts == [] {
      assert Between({}, lo, lo + c.window) == {};
    } else {
      var n := |ts| - 1;
      var a, now := Admitted(c, ts[..n]), ts[n];
      RequestsAreMilliseconds(c, ts[..n], lo);
      RequestsNext(c, ts, lo);
      if Admits(c, a, now) {
        if c.limit == 1 {
          NobodyLeft(c, a, now);
        } else {
          AdmittedIsPast(c, ts[..n], now - 1);
        }
        MillisecondsNext(c, a, now, lo);
      }
    }
  }

  /** With room for one, an admitted millisecond shuts out even its own later requests. */
  lemma {:induction false} NobodyLeft(c: Config, a: set<int>, now: int)
    requires c.limit == 1 && c.window >= 1 && Admits(c, a, now)
    ensures now !in a
  {
    assert Unexpired(a, now - c.window) == {};
    assert now in a ==> now in Unexpired(a, now - c.window);
  }

  /** So the script limits requests, rather than milliseconds, exactly when the limit is one. */
  lemma {:induction false} LimitsRequestsIffLimitIsOne(c: Config)
    requires Sane(c)
    ensures LimitsRequests(c) <==> c.limit == 1
  {
    if c.limit == 1 {
      forall ts, lo {:trigger Requests(c, ts, lo)} | Ascending(ts) ensures Requests(c, ts, lo) <= c.limit {
        RequestsAreMilliseconds(c, ts, lo);
        MillisecondsAreBounded(c, ts, lo);
      }
    } else {
      var ts := Repeat(0, c.limit + 1);
      BurstInOneMillisecond(c, 0, c.limit + 1);
      assert Ascending(ts) && Requests(c, ts, -1) == c.limit + 1;
    }
  }

  /** And whatever the limit, it holds for requests in every run whose calls fall in distinct milliseconds. */
  lemma {:induction false} DistinctCallsAreLimited(c: Config, ts: seq<int>, lo: int)
    requires Sane(c) && forall i, j :: 0 <= i < j < |ts| ==> ts[i] < ts[j]
    ensures Requests(c, ts, lo) <= c.limit
  {
    RequestsAreMilliseconds(c, ts, lo);
    MillisecondsAreBounded(c, ts, lo);
  }
}
