/**
 * The sliding window on values: the pruned list of admission times kept for one key, against the
 * full admission history that the list replaces.
 */
module SlidingWindow {
  import opened Collections
  import opened TimeLog

  datatype Config = Config(rate: int, window: int)

  function Self(t: int): int { t }

  /** The list after the stale prefix is evicted. */
  function Prune(c: Config, stamps: seq<int>, now: int): seq<int>
  {
    stamps[Stale(stamps, Self, now - c.window)..]
  }

  predicate Admits(c: Config, stamps: seq<int>, now: int)
  {
    |Prune(c, stamps, now)| < c.rate
  }

  function Use(c: Config, stamps: seq<int>, now: int): seq<int>
  {
    if Admits(c, stamps, now) then Prune(c, stamps, now) + [now] else Prune(c, stamps, now)
  }

  /** What a rejected caller is told: when the oldest listed admission reaches the window's age. */
  function RetryAfter(c: Config, stamps: seq<int>, now: int): int
    requires c.rate >= 1 && !Admits(c, stamps, now)
  {
    Prune(c, stamps, now)[0] + c.window - now
  }

  // --------------------------------------------------------------------- runs

  function Run(c: Config, ts: seq<int>): seq<int>
  {
    if ts == [] then [] else Use(c, Run(c, ts[..|ts| - 1]), ts[|ts| - 1])
  }

  /** The reference: every admission ever made, decided by counting the whole history each time. */
  function Within(history: seq<int>, lo: int, hi: int): (n: nat)
    ensures n <= |history|
  {
    if history == [] then 0
    else Within(history[..|history| - 1], lo, hi) + if lo <= history[|history| - 1] <= hi then 1 else 0
  }

  function History(c: Config, ts: seq<int>): seq<int>
  {
    if ts == [] then []
    else
      var h, now := History(c, ts[..|ts| - 1]), ts[|ts| - 1];
      if Within(h, now - c.window, now) < c.rate then h + [now] else h
  }

  /** The list is the recent part of the history: all that lies within a window of the last call. */
  ghost predicate Kept(c: Config, stamps: seq<int>, history: seq<int>, last: int)
  {
    && Sorted(history, Self)
    && (forall i :: 0 <= i < |history| ==> history[i] <= last)
    && stamps == Since(history, Self, last - c.window)
  }

  lemma {:induction false} WithinIsCounted(history: seq<int>, lo: int, hi: int)
    ensures Within(history, lo, hi) == |set i | 0 <= i < |history| && lo <= history[i] <= hi|
    decreases |history|
  {
    if history != [] {
      var n := |history| - 1;
      WithinIsCounted(history[..n], lo, hi);
      var before := set i | 0 <= i < n && lo <= history[..n][i] <= hi;
      assert (set i | 0 <= i < |history| && lo <= history[i] <= hi)
          == if lo <= history[n] <= hi then before + {n} else before;
    }
  }

  lemma {:induction false} WithinIsSince(history: seq<int>, lo: int, hi: int)
    requires forall i :: 0 <= i < |history| ==> history[i] <= hi
    ensures Within(history, lo, hi) == |Since(history, Self, lo)|
    decreases |history|
  {
    if history != [] {
      WithinIsSince(history[..|history| - 1], lo, hi);
    }
  }

  lemma {:induction false} PruneKept(c: Config, stamps: seq<int>, history: seq<int>, last: int, now: int)
    requires Kept(c, stamps, history, last) && last <= now
    ensures Prune(c, stamps, now) == Since(history, Self, now - c.window)
    ensures |Prune(c, stamps, now)| == Within(history, now - c.window, now)
  {
    hide Since, Stale, Sorted, Within;
    SinceIsSorted(history, Self, last - c.window);
    EvictionIsFilter(stamps, Self, now - c.window);
    EarlierPruneIsHarmless(history, Self, last - c.window, now - c.window);
    WithinIsSince(history, now - c.window, now);
  }

  lemma {:induction false} UseKept(c: Config, stamps: seq<int>, history: seq<int>, last: int, now: int)
    requires c.window >= 0 && Kept(c, stamps, history, last) && last <= now
    ensures Kept(c, Use(c, stamps, now),
                 if Within(history, now - c.window, now) < c.rate then history + [now] else history, now)
  {
    hide Since, Stale, Within, Prune, Sorted;
    PruneKept(c, stamps, history, last, now);
    SinceAppend(history, now, Self, now - c.window);
    SortedAppend(history, now);
    assert forall i :: 0 <= i < |history| + 1 ==> (history + [now])[i] <= now;
  }

  lemma {:induction false} SortedAppend(history: seq<int>, now: int)
    requires Sorted(history, Self) && forall i :: 0 <= i < |history| ==> history[i] <= now
    ensures Sorted(history + [now], Self)
  {
  }

  lemma {:induction false} NothingKept(c: Config, last: int)
    ensures Kept(c, [], [], last)
  {
  }

  /** In every run the pruned list is exactly the recent part of the complete admission history. */
  lemma {:induction false} ListIsRecentHistory(c: Config, ts: seq<int>)
    requires c.window >= 0 && Ascending(ts) && ts != []
    ensures Kept(c, Run(c, ts), History(c, ts), ts[|ts| - 1])
    decreases |ts|
  {
    hide Since, Stale, Within, Prune, Sorted, Use;
    var n := |ts| - 1;
    if n == 0 {
      assert ts[..0] == [];
      NothingKept(c, ts[0]);
      UseKept(c, [], [], ts[0], ts[0]);
    } else {
      ListIsRecentHistory(c, ts[..n]);
      UseKept(c, Run(c, ts[..n]), History(c, ts[..n]), ts[n - 1], ts[n]);
    }
  }

  /** Hence each call is decided as if the whole history were counted: fewer than rate in [now - window, now]. */
  lemma {:induction false} DecidesByHistory(c: Config, ts: seq<int>, now: int)
    requires c.window >= 0 && Ascending(ts + [now])
    ensures Admits(c, Run(c, ts), now) <==> Within(History(c, ts), now - c.window, now) < c.rate
  {
    if ts != [] {
      assert (ts + [now])[|ts| - 1] == ts[|ts| - 1] && (ts + [now])[|ts|] == now;
      assert Ascending(ts) by {
        forall i, j | 0 <= i <= j < |ts| ensures ts[i] <= ts[j] {
          assert (ts + [now])[i] <= (ts + [now])[j];
        }
      }
      ListIsRecentHistory(c, ts);
      PruneKept(c, Run(c, ts), History(c, ts), ts[|ts| - 1], now);
    }
  }

  /** The list is sorted and never longer than the rate. */
  lemma {:induction false} ListStaysShort(c: Config, ts: seq<int>)
    requires c.rate >= 0 && c.window >= 0 && Ascending(ts)
    ensures |Run(c, ts)| <= c.rate && Sorted(Run(c, ts), Self)
    decreases |ts|
  {
    hide Since, Stale, Sorted, History;
    if ts == [] {
      NothingKept(c, 0);
      SinceIsSorted([], Self, 0);
    } else {
      ListStaysShort(c, ts[..|ts| - 1]);
      ListIsRecentHistory(c, ts);
      SinceIsSorted(History(c, ts), Self, ts[|ts| - 1] - c.window);
    }
  }

  lemma {:induction false} WithinNarrower(history: seq<int>, lo: int, hi: int, lo': int, hi': int)
    requires forall i :: 0 <= i < |history| && lo <= history[i] <= hi ==> lo' <= history[i] <= hi'
    ensures Within(history, lo, hi) <= Within(history, lo', hi')
    decreases |history|
  {
    if history != [] {
      WithinNarrower(history[..|history| - 1], lo, hi, lo', hi');
    }
  }

  /** No closed interval of the window's length, wherever it is placed, ever holds more than rate admissions. */
  lemma {:induction false} EveryIntervalIsBounded(c: Config, ts: seq<int>, lo: int)
    requires c.rate >= 0 && c.window >= 0 && Ascending(ts)
    ensures Within(History(c, ts), lo, lo + c.window) <= c.rate
    decreases |ts|
  {
    hide Within;
    if ts != [] {
      var n := |ts| - 1;
      var h, now := History(c, ts[..n]), ts[n];
      EveryIntervalIsBounded(c, ts[..n], lo);
      WithinAppend(h, now, lo, lo + c.window);
      if lo <= now <= lo + c.window {
        HistoryIsPast(c, ts[..n], now);
        WithinNarrower(h, lo, lo + c.window, now - c.window, now);
      }
    }
  }

  lemma {:induction false} WithinAppend(history: seq<int>, now: int, lo: int, hi: int)
    ensures Within(history + [now], lo, hi) == Within(history, lo, hi) + if lo <= now <= hi then 1 else 0
  {
    assert (history + [now])[..|history|] == history;
  }

  lemma {:induction false} HistoryIsPast(c: Config, ts: seq<int>, now: int)
    requires forall i :: 0 <= i < |ts| ==> ts[i] <= now
    ensures forall i :: 0 <= i < |History(c, ts)| ==> History(c, ts)[i] <= now
    decreases |ts|
  {
    if ts != [] {
      HistoryIsPast(c, ts[..|ts| - 1], now);
    }
  }

  // ------------------------------------------------------ the advice to a rejected caller

  /** Pruning at two moments is pruning at the later one. */
  lemma {:induction false} PruneTwice(c: Config, stamps: seq<int>, mid: int, now: int)
    requires Sorted(stamps, Self) && mid <= now
    ensures Prune(c, Prune(c, stamps, mid), now) == Prune(c, stamps, now)
  {
    hide Prune, Since, Sorted;
    PruneIsFilter(c, stamps, mid);
    SinceIsSorted(stamps, Self, mid - c.window);
    PruneIsFilter(c, Prune(c, stamps, mid), now);
    PruneIsFilter(c, stamps, now);
    EarlierPruneIsHarmless(stamps, Self, mid - c.window, now - c.window);
  }

  lemma {:induction false} PruneIsFilter(c: Config, stamps: seq<int>, now: int)
    requires Sorted(stamps, Self)
    ensures Prune(c, stamps, now) == Since(stamps, Self, now - c.window)
  {
    hide Since, Stale, Sorted;
    EvictionIsFilter(stamps, Self, now - c.window);
  }

  /** A full list still turns a retry away as long as its oldest entry is not stale, and no longer. */
  lemma {:induction false} FullUntilOldestIsStale(c: Config, stamps: seq<int>, now: int, t: int)
    requires c.rate >= 1 && Sorted(stamps, Self) && |stamps| <= c.rate
    requires !Admits(c, stamps, now) && now <= t
    ensures Admits(c, stamps, t) <==> t > now + RetryAfter(c, stamps, now)
  {
    assert Prune(c, stamps, now) == stamps;
    assert Self(stamps[0]) == stamps[0];
  }

  function Retries(c: Config, stamps: seq<int>, ts: seq<int>): seq<int>
  {
    if ts == [] then stamps else Use(c, Retries(c, stamps, ts[..|ts| - 1]), ts[|ts| - 1])
  }

  /** Rejected calls only prune, so any run of them, early or not, does what its last call alone would. */
  lemma {:induction false} RejectedRunIsOnePrune(c: Config, stamps: seq<int>, ts: seq<int>)
    requires Sorted(stamps, Self) && Ascending(ts) && ts != []
    requires forall i :: 0 <= i < |ts| ==> !Admits(c, Retries(c, stamps, ts[..i]), ts[i])
    ensures Retries(c, stamps, ts) == Prune(c, stamps, ts[|ts| - 1])
    decreases |ts|
  {
    hide Prune, Admits, Sorted;
    var n := |ts| - 1;
    assert !Admits(c, Retries(c, stamps, ts[..n]), ts[n]);
    RejectedOnlyPrunes(c, Retries(c, stamps, ts[..n]), ts[n]);
    if n > 0 {
      assert forall i :: 0 <= i < n ==> ts[..n][..i] == ts[..i];
      RejectedRunIsOnePrune(c, stamps, ts[..n]);
      PruneTwice(c, stamps, ts[n - 1], ts[n]);
    }
  }

  lemma {:induction false} RejectedOnlyPrunes(c: Config, stamps: seq<int>, now: int)
    requires !Admits(c, stamps, now)
    ensures Use(c, stamps, now) == Prune(c, stamps, now)
  {
  }

  /** And no later call can tell whether the rejected ones were ever made. */
  lemma {:induction false} RejectedCallsLeaveNoTrace(c: Config, stamps: seq<int>, ts: seq<int>, t: int)
    requires Sorted(stamps, Self) && Ascending(ts) && (forall i :: 0 <= i < |ts| ==> ts[i] <= t)
    requires forall i :: 0 <= i < |ts| ==> !Admits(c, Retries(c, stamps, ts[..i]), ts[i])
    ensures Admits(c, Retries(c, stamps, ts), t) <==> Admits(c, stamps, t)
    ensures Use(c, Retries(c, stamps, ts), t) == Use(c, stamps, t)
  {
    hide Prune, Sorted;
    if ts != [] {
      RejectedRunIsOnePrune(c, stamps, ts);
      PruneTwice(c, stamps, ts[|ts| - 1], t);
    }
  }

  lemma {:induction false} EarlyRetriesChangeNothing(c: Config, stamps: seq<int>, now: int, retries: seq<int>)
    requires c.rate >= 1 && Sorted(stamps, Self) && |stamps| <= c.rate && !Admits(c, stamps, now)
    requires forall i :: 0 <= i < |retries| ==> now <= retries[i] <= now + RetryAfter(c, stamps, now)
    ensures Retries(c, stamps, retries) == stamps
    decreases |retries|
  {
    if retries != [] {
      var n := |retries| - 1;
      EarlyRetriesChangeNothing(c, stamps, now, retries[..n]);
      FullUntilOldestIsStale(c, stamps, now, retries[n]);
      assert Stale(stamps, Self, retries[n] - c.window) == 0 by {
        assert Self(stamps[0]) == stamps[0];
      }
    }
  }

  /**
   * The advice is tight: after any number of retries up to and including now + RetryAfter all are
   * rejected, and the first call strictly after it is admitted. A caller who waits exactly the
   * advertised time is one nanosecond early.
   */
  lemma {:induction false} RetryAfterIsTight(c: Config, ts: seq<int>, now: int, retries: seq<int>, t: int)
    requires c.rate >= 1 && c.window >= 0 && Ascending(ts) && !Admits(c, Run(c, ts), now)
    requires Ascending([now] + retries) && now <= t
    requires forall i :: 0 <= i < |retries| ==> retries[i] <= now + RetryAfter(c, Run(c, ts), now)
    ensures Admits(c, Retries(c, Run(c, ts), retries), t) <==> t > now + RetryAfter(c, Run(c, ts), now)
  {
    ListStaysShort(c, ts);
    forall i | 0 <= i < |retries| ensures now <= retries[i] {
      assert ([now] + retries)[0] <= ([now] + retries)[i + 1];
    }
    EarlyRetriesChangeNothing(c, Run(c, ts), now, retries);
    FullUntilOldestIsStale(c, Run(c, ts), now, t);
  }
}
