/** The three limiters as the program keeps them: one bucket per key, made the first time a key is seen. */
module Limiters {
  import TokenBucket
  import SlidingWindow
  import RedisWindow
  import opened Collections
  import opened TimeLog

  datatype Verdict = Allowed | Limited(retryAfter: int)

  // ------------------------------------------------------------- token bucket

  class TbBucket {
    ghost const owner: string
    var tokens: real
    var lastFill: int

    constructor (tokens: real, lastFill: int, ghost owner: string)
      ensures this.owner == owner && Abs() == TokenBucket.State(tokens, lastFill)
    {
      this.tokens, this.lastFill, this.owner := tokens, lastFill, owner;
    }

    ghost function Abs(): TokenBucket.State
      reads this
    {
      TokenBucket.State(tokens, lastFill)
    }

    /** Refill, then take a token if there is a whole one. */
    method Take(cfg: TokenBucket.Config, now: int) returns (v: Verdict)
      requires cfg.rate > 0.0
      modifies this
      ensures Abs() == TokenBucket.Use(cfg, old(Abs()), now)
      ensures v == if TokenBucket.Admits(cfg, old(Abs()), now) then Allowed
                   else Limited(TokenBucket.RetryAfter(cfg, old(Abs()), now))
    {
      ghost var filled := TokenBucket.Refill(cfg, Abs(), now);
      var elapsed := (now - lastFill) as real / 1e9;
      tokens := TokenBucket.Min(cfg.burst as real, tokens + elapsed * cfg.rate);
      lastFill := now;
      assert Abs() == filled;
      if tokens < 1.0 {
        return Limited(((1.0 - tokens) / cfg.rate * 1e9).Floor);
      }
      tokens := tokens - 1.0;
      return Allowed;
    }
  }

  class LocalTokenBucket {
    const cfg: TokenBucket.Config
    var buckets: map<string, TbBucket>

    constructor (cfg: TokenBucket.Config)
      ensures this.cfg == cfg && buckets == map[] && Valid()
    {
      this.cfg, buckets := cfg, map[];
    }

    /** No two keys share a bucket. */
    ghost predicate Valid()
      reads this
    {
      forall k :: k in buckets ==> buckets[k].owner == k
    }

    /** Where a key stands: its bucket's state, or that of the bucket it would get now. */
    ghost function StateOf(key: string, now: int): TokenBucket.State
      reads this, buckets.Values
    {
      if key in buckets then buckets[key].Abs() else TokenBucket.Create(cfg, now)
    }

    method GetOrCreate(key: string, now: int) returns (b: TbBucket)
      requires Valid()
      modifies this`buckets
      ensures Valid()
      ensures key in buckets && b == buckets[key]
      ensures key in old(buckets) ==> buckets == old(buckets)
      ensures key !in old(buckets) ==>
                fresh(b) && buckets == old(buckets)[key := b] && b.Abs() == TokenBucket.Create(cfg, now)
    {
      if key in buckets {
        return buckets[key];
      }
      b := new TbBucket(cfg.burst as real, now, key);
      buckets := buckets[key := b];
    }

    /** The clock is read when a bucket is made, and again once the bucket's lock is held. */
    method Allow(key: string, made: int, now: int) returns (v: Verdict)
      requires Valid() && cfg.rate > 0.0
      modifies this`buckets, buckets.Values
      ensures Valid() && buckets.Keys == old(buckets).Keys + {key}
      ensures var s := old(StateOf(key, made));
              && v == (if TokenBucket.Admits(cfg, s, now) then Allowed
                       else Limited(TokenBucket.RetryAfter(cfg, s, now)))
              && buckets[key].Abs() == TokenBucket.Use(cfg, s, now)
      ensures forall k :: k in old(buckets) && k != key ==>
                buckets[k] == old(buckets[k]) && buckets[k].Abs() == old(buckets[k].Abs())
    {
      hide TokenBucket.Use, TokenBucket.Admits, TokenBucket.RetryAfter;
      var bucket := GetOrCreate(key, made);
      v := bucket.Take(cfg, now);
    }
  }

  // ----------------------------------------------------------- sliding window

  class SwBucket {
    ghost const owner: string
    var timestamps: seq<int>

    constructor (ghost owner: string)
      ensures this.owner == owner && timestamps == []
    {
      this.owner, timestamps := owner, [];
    }

    /** Evict the stale prefix, then admit if there is room. */
    method Take(cfg: SlidingWindow.Config, now: int) returns (v: Verdict)
      requires cfg.rate >= 1
      modifies this
      ensures timestamps == SlidingWindow.Use(cfg, old(timestamps), now)
      ensures v == if SlidingWindow.Admits(cfg, old(timestamps), now) then Allowed
                   else Limited(SlidingWindow.RetryAfter(cfg, old(timestamps), now))
    {
      var cutoff := now - cfg.window;
      var i := 0;
      while i < |timestamps| && timestamps[i] < cutoff
        invariant 0 <= i <= |timestamps|
        invariant forall k :: 0 <= k < i ==> timestamps[k] < cutoff
      {
        i := i + 1;
      }
      StaleIs(timestamps, SlidingWindow.Self, cutoff, i);
      timestamps := timestamps[i..];
      if |timestamps| >= cfg.rate {
        var oldest := timestamps[0];
        return Limited(oldest + cfg.window - now);
      }
      timestamps := timestamps + [now];
      return Allowed;
    }
  }

  class LocalSlidingWindow {
    const cfg: SlidingWindow.Config
    var buckets: map<string, SwBucket>

    constructor (cfg: SlidingWindow.Config)
      ensures this.cfg == cfg && buckets == map[] && Valid()
    {
      this.cfg, buckets := cfg, map[];
    }

    ghost predicate Valid()
      reads this
    {
      forall k :: k in buckets ==> buckets[k].owner == k
    }

    ghost function StampsOf(key: string): seq<int>
      reads this, buckets.Values
    {
      if key in buckets then buckets[key].timestamps else []
    }

    method GetOrCreate(key: string) returns (b: SwBucket)
      requires Valid()
      modifies this`buckets
      ensures Valid()
      ensures key in buckets && b == buckets[key]
      ensures key in old(buckets) ==> buckets == old(buckets)
      ensures key !in old(buckets) ==> fresh(b) && buckets == old(buckets)[key := b] && b.timestamps == []
    {
      if key in buckets {
        return buckets[key];
      }
      b := new SwBucket(key);
      buckets := buckets[key := b];
    }

    method Allow(key: string, now: int) returns (v: Verdict)
      requires Valid() && cfg.rate >= 1
      modifies this`buckets, buckets.Values
      ensures Valid() && buckets.Keys == old(buckets).Keys + {key}
      ensures var s := old(StampsOf(key));
              && v == (if SlidingWindow.Admits(cfg, s, now) then Allowed
                       else Limited(SlidingWindow.RetryAfter(cfg, s, now)))
              && buckets[key].timestamps == SlidingWindow.Use(cfg, s, now)
      ensures forall k :: k in old(buckets) && k != key ==>
                buckets[k] == old(buckets[k]) && buckets[k].timestamps == old(buckets[k].timestamps)
    {
      var bucket := GetOrCreate(key);
      v := bucket.Take(cfg, now);
    }
  }

  // -------------------------------------------------------------------- Redis

  /** Redis answers, or the answer is lost (an error or a timeout) before or after the script ran. */
  datatype Reply = Answered | Lost(ran: bool)

  class RedisLimiter {
    const cfg: RedisWindow.Config
    /** The keys Redis knows, each with its sorted set and expiry. */
    var store: map<string, RedisWindow.Key>

    constructor (cfg: RedisWindow.Config)
      ensures this.cfg == cfg && store == map[]
    {
      this.cfg, store := cfg, map[];
    }

    ghost function KeyOf(key: string): RedisWindow.Key
      reads this
    {
      if key in store then store[key] else RedisWindow.Missing
    }

    /** The lowest-ranked member of a sorted set. */
    static method First(members: set<int>) returns (m: int)
      requires members != {}
      ensures m in members && forall x :: x in members ==> m <= x
    {
      ghost var some := Any(members);
      m :| m in members;
      var rest := members - {m};
      while rest != {}
        invariant rest <= members && m in members
        invariant forall x :: x in members && x !in rest ==> m <= x
        decreases rest
      {
        some := Any(rest);
        var x :| x in rest;
        if x < m {
          m := x;
        }
        rest := rest - {x};
      }
    }

    /** A call whose answer is lost goes through, whether or not the script ran before that. */
    method Allow(key: string, now: int, reply: Reply) returns (v: Verdict)
      requires cfg.limit >= 1
      modifies this
      ensures store == if reply == Lost(false) then old(store)
                       else old(store)[key := RedisWindow.Call(cfg, old(KeyOf(key)), now)]
      ensures v.Allowed? <==> reply.Lost? || RedisWindow.CallAdmits(cfg, old(KeyOf(key)), now)
      ensures v.Limited? ==>
                exists oldest :: oldest in KeyOf(key).members
                              && v.retryAfter == RedisWindow.RetryAfter(cfg, oldest, now)
                              && forall m :: m in KeyOf(key).members ==> oldest <= m
    {
      if reply == Lost(false) {
        return Allowed;
      }
      v := RunScript(key, now);
      if reply.Lost? {
        v := Allowed;
      }
    }

    method RunScript(key: string, now: int) returns (v: Verdict)
      requires cfg.limit >= 1
      modifies this
      ensures v.Allowed? ==> KeyOf(key).deadline == now + RedisWindow.Lifetime(cfg) && now in KeyOf(key).members
      ensures v.Limited? ==> KeyOf(key).deadline == old(KeyOf(key)).deadline
      ensures store == old(store)[key := RedisWindow.Call(cfg, old(KeyOf(key)), now)]
      ensures v.Allowed? <==> RedisWindow.CallAdmits(cfg, old(KeyOf(key)), now)
      ensures v.Limited? ==>
                exists oldest :: oldest in KeyOf(key).members
                              && v.retryAfter == RedisWindow.RetryAfter(cfg, oldest, now)
                              && forall m :: m in KeyOf(key).members ==> oldest <= m
    {
      hide RedisWindow.Lifetime;
      var k := if key in store then store[key] else RedisWindow.Missing;
      if now >= k.deadline {
        k := RedisWindow.Key({}, k.deadline);
      }
      var cutoff := now - cfg.window;
      k := RedisWindow.Key((set m | m in k.members && m > cutoff), k.deadline);
      if |k.members| >= cfg.limit {
        var oldest := First(k.members);
        store := store[key := k];
        assert oldest in KeyOf(key).members;
        return Limited(oldest + cfg.window - now);
      }
      store := store[key := RedisWindow.Key(k.members + {now}, now + RedisWindow.Lifetime(cfg))];
      return Allowed;
    }
  }
}
