/**
 * The table of buckets under concurrency. Any number of requests look a key up under the read
 * lock, and on a miss take the write lock, look again and only then make a bucket; each then uses
 * its bucket under the bucket's own lock. Every critical section is one step.
 */
module BucketTable {
  import TokenBucket
  import SlidingWindow
  import opened Collections

  datatype Limiter = Tokens(tc: TokenBucket.Config) | Window(wc: SlidingWindow.Config)

  datatype Bucket = TokenState(state: TokenBucket.State) | Stamps(stamps: seq<int>)

  function Make(l: Limiter, now: int): Bucket
  {
    match l
    case Tokens(tc) => TokenState(TokenBucket.Create(tc, now))
    case Window(_) => Stamps([])
  }

  predicate Grants(l: Limiter, b: Bucket, now: int)
  {
    match (l, b)
    case (Tokens(tc), TokenState(s)) => TokenBucket.Admits(tc, s, now)
    case (Window(wc), Stamps(ts)) => SlidingWindow.Admits(wc, ts, now)
    case _ => false
  }

  function Use(l: Limiter, b: Bucket, now: int): Bucket
  {
    match (l, b)
    case (Tokens(tc), TokenState(s)) => TokenState(TokenBucket.Use(tc, s, now))
    case (Window(wc), Stamps(ts)) => Stamps(SlidingWindow.Use(wc, ts, now))
    case _ => b
  }

  // ------------------------------------------------------------- the protocol

  /** Where a request is: about to read, missed and waiting to write, holding a bucket, or through. */
  datatype Progress =
    | Reading(key: string)
    | Missed(key: string)
    | Holding(key: string, id: nat)
    | Through(key: string, id: nat)

  datatype Decision = Decision(key: string, at: int, ok: bool)

  /** A bucket on the heap and when it was made. */
  datatype Cell = Cell(made: int, bucket: Bucket)

  datatype Table = Table(
    clock: int,
    ids: map<string, nat>,
    cells: seq<Cell>,
    requests: map<nat, Progress>,
    log: seq<Decision>)

  datatype Move =
    | Arrive(r: nat, key: string)
    | Read(r: nat)
    | Lock(r: nat, now: int)
    | Spend(r: nat, now: int)

  ghost predicate Enabled(t: Table, m: Move)
  {
    match m
    case Arrive(r, _) => r !in t.requests
    case Read(r) => r in t.requests && t.requests[r].Reading?
    case Lock(r, now) => r in t.requests && t.requests[r].Missed? && t.clock <= now
    case Spend(r, now) =>
      && r in t.requests && t.requests[r].Holding? && t.requests[r].id < |t.cells|
      && t.clock <= now
  }

  function Step(l: Limiter, t: Table, m: Move): Table
    requires Enabled(t, m)
  {
    match m
    case Arrive(r, key) => t.(requests := t.requests[r := Reading(key)])
    case Read(r) =>
      var key := t.requests[r].key;
      t.(requests := t.requests[r := if key in t.ids then Holding(key, t.ids[key]) else Missed(key)])
    case Lock(r, now) =>
      var key := t.requests[r].key;
      if key in t.ids then t.(clock := now, requests := t.requests[r := Holding(key, t.ids[key])])
      else t.(clock := now, ids := t.ids[key := |t.cells|], cells := t.cells + [Cell(now, Make(l, now))],
              requests := t.requests[r := Holding(key, |t.cells|)])
    case Spend(r, now) =>
      var key, id := t.requests[r].key, t.requests[r].id;
      var b := t.cells[id].bucket;
      t.(clock := now,
         cells := t.cells[id := t.cells[id].(bucket := Use(l, b, now))],
         requests := t.requests[r := Through(key, id)],
         log := t.log + [Decision(key, now, Grants(l, b, now))])
  }

  const Start := Table(0, map[], [], map[], [])

  /** `trace` records an interleaving that starts with an empty table. */
  ghost predicate IsRun(l: Limiter, trace: seq<Table>, moves: seq<Move>)
  {
    && |trace| == |moves| + 1 && trace[0] == Start
    && forall i :: 0 <= i < |moves| ==> Enabled(trace[i], moves[i]) && trace[i + 1] == Step(l, trace[i], moves[i])
  }

  // -------------------------------------------------------- one key on its own

  /** The times of the calls made for one key, and what was decided. */
  function TimesOf(log: seq<Decision>, key: string): seq<int>
  {
    if log == [] then []
    else
      var d := log[|log| - 1];
      TimesOf(log[..|log| - 1], key) + if d.key == key then [d.at] else []
  }

  function AnswersOf(log: seq<Decision>, key: string): seq<bool>
  {
    if log == [] then []
    else
      var d := log[|log| - 1];
      AnswersOf(log[..|log| - 1], key) + if d.key == key then [d.ok] else []
  }

  /** A single bucket that nobody else touches, used at the given times. */
  function Alone(l: Limiter, made: int, ts: seq<int>): Bucket
  {
    if ts == [] then Make(l, made) else Use(l, Alone(l, made, ts[..|ts| - 1]), ts[|ts| - 1])
  }

  function AloneAnswers(l: Limiter, made: int, ts: seq<int>): (answers: seq<bool>)
    ensures |answers| == |ts|
  {
    if ts == [] then []
    else AloneAnswers(l, made, ts[..|ts| - 1]) + [Grants(l, Alone(l, made, ts[..|ts| - 1]), ts[|ts| - 1])]
  }

  /** What the log says about a key that has bucket number id. */
  ghost predicate KeyIsAlone(l: Limiter, t: Table, key: string)
    requires key in t.ids && t.ids[key] < |t.cells|
  {
    var cell := t.cells[t.ids[key]];
    && cell.bucket == Alone(l, cell.made, TimesOf(t.log, key))
    && AnswersOf(t.log, key) == AloneAnswers(l, cell.made, TimesOf(t.log, key))
    && cell.made <= t.clock
    && TokenBucket.Timely(cell.made, TimesOf(t.log, key))
    && (forall i :: 0 <= i < |TimesOf(t.log, key)| ==> TimesOf(t.log, key)[i] <= t.clock)
  }

  ghost predicate Linked(t: Table)
  {
    // the table points at its own cells, no two keys at the same one
    && (forall k :: k in t.ids ==> t.ids[k] < |t.cells|)
    && (forall k, k' :: k in t.ids && k' in t.ids && t.ids[k] == t.ids[k'] ==> k == k')
    // whoever holds a bucket holds the one the table has for its key
    && (forall r :: r in t.requests && (t.requests[r].Holding? || t.requests[r].Through?) ==>
          t.requests[r].key in t.ids && t.ids[t.requests[r].key] == t.requests[r].id)
  }

  ghost predicate Sound(l: Limiter, t: Table)
  {
    && Linked(t)
    // each key's bucket has seen that key's calls and no others
    && (forall k :: k in t.ids ==> KeyIsAlone(l, t, k))
    && (forall k :: k !in t.ids ==> TimesOf(t.log, k) == [])
  }

  lemma {:induction false} LogAppend(log: seq<Decision>, d: Decision, key: string)
    ensures TimesOf(log + [d], key) == TimesOf(log, key) + if d.key == key then [d.at] else []
    ensures AnswersOf(log + [d], key) == AnswersOf(log, key) + if d.key == key then [d.ok] else []
  {
    assert (log + [d])[..|log|] == log;
  }

  lemma {:induction false} AloneAppend(l: Limiter, made: int, ts: seq<int>, now: int)
    ensures Alone(l, made, ts + [now]) == Use(l, Alone(l, made, ts), now)
    ensures AloneAnswers(l, made, ts + [now]) == AloneAnswers(l, made, ts) + [Grants(l, Alone(l, made, ts), now)]
  {
    assert (ts + [now])[..|ts|] == ts;
  }

  lemma {:induction false} SpendOwnKey(l: Limiter, t: Table, m: Move)
    requires Sound(l, t) && Enabled(t, m) && m.Spend?
    ensures KeyIsAlone(l, Step(l, t, m), t.requests[m.r].key)
  {
    hide Alone, AloneAnswers, TimesOf, AnswersOf, Use, Grants;
    var key, id := t.requests[m.r].key, t.requests[m.r].id;
    assert KeyIsAlone(l, t, key);
    LogAppend(t.log, Decision(key, m.now, Grants(l, t.cells[id].bucket, m.now)), key);
    AloneAppend(l, t.cells[id].made, TimesOf(t.log, key), m.now);
  }

  lemma {:induction false} SpendOtherKey(l: Limiter, t: Table, m: Move, k: string)
    requires Sound(l, t) && Enabled(t, m) && m.Spend? && k in t.ids && k != t.requests[m.r].key
    ensures KeyIsAlone(l, Step(l, t, m), k)
  {
    hide Alone, AloneAnswers, TimesOf, AnswersOf, Use, Grants;
    var key, id := t.requests[m.r].key, t.requests[m.r].id;
    assert KeyIsAlone(l, t, k) && t.ids[k] != id;
    LogAppend(t.log, Decision(key, m.now, Grants(l, t.cells[id].bucket, m.now)), k);
    assert TimesOf(Step(l, t, m).log, k) == TimesOf(t.log, k);
    assert AnswersOf(Step(l, t, m).log, k) == AnswersOf(t.log, k);
  }

  lemma {:induction false} SpendIsSound(l: Limiter, t: Table, m: Move)
    requires Sound(l, t) && Enabled(t, m) && m.Spend?
    ensures Sound(l, Step(l, t, m))
  {
    hide Alone, AloneAnswers, TimesOf, AnswersOf, Use, Grants, KeyIsAlone;
    var t' := Step(l, t, m);
    forall k | k in t'.ids ensures KeyIsAlone(l, t', k) {
      if k == t.requests[m.r].key {
        SpendOwnKey(l, t, m);
      } else {
        SpendOtherKey(l, t, m, k);
      }
    }
    forall k | k !in t'.ids ensures TimesOf(t'.log, k) == [] {
      LogAppend(t.log, t'.log[|t.log|], k);
    }
  }

  lemma {:induction false} StillAlone(l: Limiter, t: Table, t': Table, k: string)
    requires k in t.ids && t.ids[k] < |t.cells| && KeyIsAlone(l, t, k)
    requires k in t'.ids && t'.ids[k] == t.ids[k] && t.ids[k] < |t'.cells| && t'.cells[t.ids[k]] == t.cells[t.ids[k]]
    requires t'.log == t.log && t.clock <= t'.clock
    ensures KeyIsAlone(l, t', k)
  {
  }

  lemma {:induction false} NewIsAlone(l: Limiter, t: Table, k: string)
    requires k in t.ids && t.ids[k] < |t.cells| && TimesOf(t.log, k) == []
    requires t.cells[t.ids[k]] == Cell(t.clock, Make(l, t.clock))
    ensures KeyIsAlone(l, t, k)
  {
    AnswersMatch(t.log, k);
  }

  lemma {:induction false} AnswersMatch(log: seq<Decision>, key: string)
    ensures |AnswersOf(log, key)| == |TimesOf(log, key)|
    decreases |log|
  {
    if log != [] {
      AnswersMatch(log[..|log| - 1], key);
    }
  }

  lemma {:induction false} LookupLinks(l: Limiter, t: Table, m: Move)
    requires Linked(t) && Enabled(t, m) && !m.Spend?
    ensures Linked(Step(l, t, m))
  {
    hide Make;
  }

  lemma {:induction false} LookupIsSound(l: Limiter, t: Table, m: Move)
    requires Sound(l, t) && Enabled(t, m) && !m.Spend?
    ensures Sound(l, Step(l, t, m))
  {
    hide Alone, AloneAnswers, TimesOf, AnswersOf, Use, Grants, Make, KeyIsAlone;
    LookupLinks(l, t, m);
    var t' := Step(l, t, m);
    forall k | k in t'.ids ensures KeyIsAlone(l, t', k) {
      if k in t.ids {
        StillAlone(l, t, t', k);
      } else {
        NewIsAlone(l, t', k);
      }
    }
  }

  lemma {:induction false} RunIsSound(l: Limiter, trace: seq<Table>, moves: seq<Move>, i: nat)
    requires IsRun(l, trace, moves) && i < |trace|
    ensures Sound(l, trace[i])
    decreases i
  {
    hide Step, Enabled, KeyIsAlone;
    if i == 0 {
      StartIsSound(l);
    } else {
      RunIsSound(l, trace, moves, i - 1);
      if moves[i - 1].Spend? {
        SpendIsSound(l, trace[i - 1], moves[i - 1]);
      } else {
        LookupIsSound(l, trace[i - 1], moves[i - 1]);
      }
    }
  }

  lemma {:induction false} StartIsSound(l: Limiter)
    ensures Sound(l, Start)
  {
  }

  // ------------------------------------------------------------------ results

  /** Once a key has a bucket it keeps that bucket for the rest of every run. */
  lemma {:induction false} BucketIsForEver(l: Limiter, trace: seq<Table>, moves: seq<Move>, i: nat, j: nat, key: string)
    requires IsRun(l, trace, moves) && i <= j < |trace| && key in trace[i].ids
    ensures key in trace[j].ids && trace[j].ids[key] == trace[i].ids[key]
    decreases j
  {
    if i < j {
      BucketIsForEver(l, trace, moves, i, j - 1, key);
      assert Enabled(trace[j - 1], moves[j - 1]) && trace[j] == Step(l, trace[j - 1], moves[j - 1]);
    }
  }

  /** And all requests that ever hold a bucket for the same key hold the same one. */
  lemma {:induction false} OneBucketPerKey(
    l: Limiter, trace: seq<Table>, moves: seq<Move>, i: nat, j: nat, r: nat, r': nat)
    requires IsRun(l, trace, moves) && i <= j < |trace|
    requires r in trace[i].requests && r' in trace[j].requests
    requires trace[i].requests[r].Holding? && trace[j].requests[r'].Holding?
    ensures trace[i].requests[r].key == trace[j].requests[r'].key
       <==> trace[i].requests[r].id == trace[j].requests[r'].id
  {
    RunIsSound(l, trace, moves, i);
    RunIsSound(l, trace, moves, j);
    BucketIsForEver(l, trace, moves, i, j, trace[i].requests[r].key);
  }

  lemma {:induction false} TokensAlone(tc: TokenBucket.Config, made: int, ts: seq<int>)
    ensures Alone(Tokens(tc), made, ts) == TokenState(TokenBucket.Run(tc, TokenBucket.Create(tc, made), ts))
    ensures AloneAnswers(Tokens(tc), made, ts) == TokenBucket.Decisions(tc, TokenBucket.Create(tc, made), ts)
    decreases |ts|
  {
    hide TokenBucket.Create, TokenBucket.Use, TokenBucket.Admits;
    if ts != [] {
      TokensAlone(tc, made, ts[..|ts| - 1]);
    }
  }

  lemma {:induction false} WindowAlone(wc: SlidingWindow.Config, made: int, ts: seq<int>)
    ensures Alone(Window(wc), made, ts) == Stamps(SlidingWindow.Run(wc, ts))
    decreases |ts|
  {
    hide SlidingWindow.Use;
    if ts != [] {
      WindowAlone(wc, made, ts[..|ts| - 1]);
    }
  }

  /** It does not matter when a bucket was made: it is full by its first use either way. */
  lemma {:induction false} MakingTimeIsForgotten(l: Limiter, made: int, made': int, ts: seq<int>)
    requires l.Tokens? ==> l.tc.rate >= 0.0
    requires ts != [] ==> made <= ts[0] && made' <= ts[0]
    ensures AloneAnswers(l, made, ts) == AloneAnswers(l, made', ts)
    ensures ts != [] ==> Alone(l, made, ts) == Alone(l, made', ts)
    decreases |ts|
  {
    if |ts| == 1 {
      assert ts[..0] == [];
      FirstUse(l, made, ts[0]);
      FirstUse(l, made', ts[0]);
    } else if ts != [] {
      MakingTimeIsForgotten(l, made, made', ts[..|ts| - 1]);
    }
  }

  lemma {:induction false} FirstUse(l: Limiter, made: int, now: int)
    requires made <= now && (l.Tokens? ==> l.tc.rate >= 0.0)
    ensures Grants(l, Make(l, made), now) == Grants(l, Make(l, now), now)
    ensures Use(l, Make(l, made), now) == Use(l, Make(l, now), now)
  {
    if l.Tokens? {
      TokenBucket.CreditGrows(l.tc, 0, now - made);
      TokenBucket.CreditGrows(l.tc, now - made, now - made);
      TokenBucket.CreditGrows(l.tc, 0, 0);
    }
  }

  // ----------------------------------------------------------- the calls themselves

  /** The key a request came with. */
  function KeyGiven(moves: seq<Move>, r: nat): string
  {
    if moves == [] then ""
    else
      var m := moves[|moves| - 1];
      if m.Arrive? && m.r == r then m.key else KeyGiven(moves[..|moves| - 1], r)
  }

  /** When the requests that came with this key got hold of their bucket. */
  function CallsFor(moves: seq<Move>, key: string): seq<int>
  {
    if moves == [] then []
    else
      var before, m := moves[..|moves| - 1], moves[|moves| - 1];
      CallsFor(before, key) + if m.Spend? && KeyGiven(before, m.r) == key then [m.now] else []
  }

  lemma {:induction false} CallsNext(moves: seq<Move>, m: Move, r: nat, key: string)
    ensures KeyGiven(moves + [m], r) == if m.Arrive? && m.r == r then m.key else KeyGiven(moves, r)
    ensures CallsFor(moves + [m], key)
         == CallsFor(moves, key) + if m.Spend? && KeyGiven(moves, m.r) == key then [m.now] else []
    ensures CallsFor([], key) == []
  {
    assert (moves + [m])[..|moves|] == moves;
  }

  lemma {:induction false} KeyStays(l: Limiter, trace: seq<Table>, moves: seq<Move>, i: nat, r: nat)
    requires IsRun(l, trace, moves) && i < |trace| && r in trace[i].requests
    ensures trace[i].requests[r].key == KeyGiven(moves[..i], r)
    decreases i
  {
    hide KeyGiven, CallsFor, Make, Use, Grants;
    var before, m := moves[..i - 1], moves[i - 1];
    assert Enabled(trace[i - 1], m) && trace[i] == Step(l, trace[i - 1], m);
    assert moves[..i] == before + [m];
    CallsNext(before, m, r, "");
    if r in trace[i - 1].requests {
      KeyStays(l, trace, moves, i - 1, r);
    }
  }

  /** Every call is decided, once, at its own time and under the key its request came with. */
  lemma {:induction false} EveryCallIsDecided(l: Limiter, trace: seq<Table>, moves: seq<Move>, i: nat, key: string)
    requires IsRun(l, trace, moves) && i < |trace|
    ensures TimesOf(trace[i].log, key) == CallsFor(moves[..i], key)
    ensures |AnswersOf(trace[i].log, key)| == |CallsFor(moves[..i], key)|
    decreases i
  {
    hide KeyGiven, CallsFor, TimesOf, AnswersOf, Step, Enabled;
    AnswersMatch(trace[i].log, key);
    if i == 0 {
      CallsNext([], Read(0), 0, key);
      NoTimes(key);
    } else {
      var before, m := moves[..i - 1], moves[i - 1];
      EveryCallIsDecided(l, trace, moves, i - 1, key);
      assert moves[..i] == before + [m];
      CallsNext(before, m, 0, key);
      SpendLogs(l, trace[i - 1], m, key);
      if m.Spend? {
        KeyStays(l, trace, moves, i - 1, m.r);
      }
    }
  }

  lemma {:induction false} NoTimes(key: string)
    ensures TimesOf([], key) == []
  {
  }

  lemma {:induction false} SpendLogs(l: Limiter, t: Table, m: Move, key: string)
    requires Enabled(t, m)
    ensures m.Spend? ==> m.r in t.requests
    ensures TimesOf(Step(l, t, m).log, key)
         == TimesOf(t.log, key) + if m.Spend? && t.requests[m.r].key == key then [m.now] else []
  {
    hide TimesOf, AnswersOf;
    if m.Spend? {
      LogAppend(t.log, Step(l, t, m).log[|t.log|], key);
    }
  }

  /**
   * Traffic for other keys never matters: two runs, whatever else happens in them, that call a key
   * at the same times give it the same answers.
   */
  lemma {:induction false} KeysAreIsolated(
    l: Limiter, t1: seq<Table>, m1: seq<Move>, t2: seq<Table>, m2: seq<Move>, key: string)
    requires l.Tokens? ==> l.tc.rate >= 0.0
    requires IsRun(l, t1, m1) && IsRun(l, t2, m2)
    requires CallsFor(m1, key) == CallsFor(m2, key)
    ensures AnswersOf(t1[|m1|].log, key) == AnswersOf(t2[|m2|].log, key)
    ensures |AnswersOf(t1[|m1|].log, key)| == |CallsFor(m1, key)|
  {
    hide Alone, AloneAnswers, TimesOf, AnswersOf, CallsFor;
    var a, b := t1[|m1|], t2[|m2|];
    assert m1[..|m1|] == m1 && m2[..|m2|] == m2;
    EveryCallIsDecided(l, t1, m1, |m1|, key);
    EveryCallIsDecided(l, t2, m2, |m2|, key);
    RunIsSound(l, t1, m1, |m1|);
    RunIsSound(l, t2, m2, |m2|);
    AnswersMatch(a.log, key);
    AnswersMatch(b.log, key);
    if key in a.ids && key in b.ids {
      assert KeyIsAlone(l, a, key) && KeyIsAlone(l, b, key);
      MakingTimeIsForgotten(l, a.cells[a.ids[key]].made, b.cells[b.ids[key]].made, TimesOf(a.log, key));
    }
  }

  /**
   * So under any interleaving, a key behind token buckets is limited exactly as if its calls had
   * gone to one bucket one by one, and its admissions are safe over every stretch of its calls.
   */
  lemma {:induction false} EveryTokenKeyIsSafe(tc: TokenBucket.Config, trace: seq<Table>, moves: seq<Move>, key: string)
    requires tc.rate >= 0.0 && IsRun(Tokens(tc), trace, moves) && key in trace[|moves|].ids
    ensures var t := trace[|moves|];
            var ts, answers := CallsFor(moves, key), AnswersOf(t.log, key);
            && |answers| == |ts|
            && TokenBucket.Safe(tc, ts, answers)
            && exists made :: TokenBucket.Timely(made, ts)
                           && answers == TokenBucket.Decisions(tc, TokenBucket.Create(tc, made), ts)
  {
    hide Alone, AloneAnswers, TimesOf, AnswersOf, CallsFor, TokenBucket.Decisions, TokenBucket.Safe, TokenBucket.Timely;
    var t := trace[|moves|];
    assert moves[..|moves|] == moves;
    EveryCallIsDecided(Tokens(tc), trace, moves, |moves|, key);
    RunIsSound(Tokens(tc), trace, moves, |moves|);
    assert KeyIsAlone(Tokens(tc), t, key);
    var made, ts := t.cells[t.ids[key]].made, TimesOf(t.log, key);
    TokensAlone(tc, made, ts);
    TokenBucket.BucketIsSafe(tc, made, ts);
  }

  lemma {:induction false} WindowAnswerAt(wc: SlidingWindow.Config, made: int, ts: seq<int>, i: nat)
    requires wc.window >= 0 && i < |ts| && Ascending(ts)
    ensures AloneAnswers(Window(wc), made, ts)[i]
       <==> SlidingWindow.Within(SlidingWindow.History(wc, ts[..i]), ts[i] - wc.window, ts[i]) < wc.rate
    decreases |ts|
  {
    hide SlidingWindow.Within, SlidingWindow.History, SlidingWindow.Run, SlidingWindow.Admits, Alone;
    var n := |ts| - 1;
    if i < n {
      assert Ascending(ts[..n]) by {
        forall j, k | 0 <= j <= k < n ensures ts[..n][j] <= ts[..n][k] {
          assert ts[j] <= ts[k];
        }
      }
      WindowAnswerAt(wc, made, ts[..n], i);
      assert ts[..n][..i] == ts[..i];
    } else {
      WindowAlone(wc, made, ts[..n]);
      assert ts[..n] + [ts[n]] == ts;
      SlidingWindow.DecidesByHistory(wc, ts[..n], ts[n]);
    }
  }

  /** And a key behind sliding windows is answered, each time, by counting that key's own history. */
  lemma {:induction false} EveryWindowKeyCountsItself(
    wc: SlidingWindow.Config, trace: seq<Table>, moves: seq<Move>, key: string, i: nat)
    requires wc.window >= 0 && IsRun(Window(wc), trace, moves)
    requires i < |CallsFor(moves, key)|
    ensures var t, ts := trace[|moves|], CallsFor(moves, key);
            && |AnswersOf(t.log, key)| == |ts|
            && (AnswersOf(t.log, key)[i]
                <==> SlidingWindow.Within(SlidingWindow.History(wc, ts[..i]), ts[i] - wc.window, ts[i]) < wc.rate)
  {
    hide Alone, AloneAnswers, TimesOf, AnswersOf, CallsFor;
    var t := trace[|moves|];
    assert moves[..|moves|] == moves;
    EveryCallIsDecided(Window(wc), trace, moves, |moves|, key);
    RunIsSound(Window(wc), trace, moves, |moves|);
    assert key in t.ids;
    assert KeyIsAlone(Window(wc), t, key);
    WindowAnswerAt(wc, t.cells[t.ids[key]].made, TimesOf(t.log, key), i);
  }
}
