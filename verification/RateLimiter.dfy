/** The rate limiter as the program has it: limiter objects, created on first use and kept in a map. */
module RateLimiters {
  import TB = TokenBucket
  import opened KeyedLimiter

  class SimpleLimiter {
    var tokens: real
    var lastRefill: int
    var maxTokens: int
    var refillRate: TB.Rate

    constructor (requestsPerSec: TB.Rate, burstSize: int, now: int)
      ensures Value() == TB.New(requestsPerSec, burstSize, now)
    {
      tokens, lastRefill, maxTokens, refillRate := burstSize as real, now, burstSize, requestsPerSec;
    }

    ghost function Value(): TB.Bucket
      reads this
    {
      TB.Bucket(tokens, lastRefill, maxTokens, refillRate)
    }

    method Allow(now: int) returns (allowed: bool)
      modifies this
      ensures allowed == TB.Admits(old(Value()), now) && Value() == TB.Allow(old(Value()), now)
    {
      var elapsed := now - lastRefill;
      var tokensToAdd := refillRate * (elapsed as real / TB.NANOS_PER_SECOND);
      tokens := TB.Min(tokens + tokensToAdd, maxTokens as real);
      lastRefill := now;
      if tokens >= 1.0 {
        tokens := tokens - 1.0;
        return true;
      }
      return false;
    }

    method Stats(now: int) returns (stats: TB.Stats)
      ensures stats == TB.StatsOf(Value(), now)
    {
      var elapsed := now - lastRefill;
      var tokensToAdd := refillRate * (elapsed as real / TB.NANOS_PER_SECOND);
      var currentTokens := TB.Min(tokens + tokensToAdd, maxTokens as real);
      assert currentTokens == TB.Level(Value(), now);
      var remaining := TB.Truncate(currentTokens);
      var requests := maxTokens - remaining;
      var retryAfter := 0;
      if remaining == 0 {
        retryAfter := TB.Truncate(TB.NANOS_PER_SECOND / refillRate);
      }
      stats := TB.Stats(requests, remaining, now + TB.Truncate(maxTokens as real / refillRate) * 1_000_000_000, retryAfter);
    }

    method IsIdle(now: int) returns (idle: bool)
      ensures idle == TB.Idle(Value(), now)
      ensures idle ==> TB.Level(Value(), now) == maxTokens as real && TB.Replaceable(Value(), now)
    {
      if TB.Idle(Value(), now) { TB.IdleIsReplaceable(Value(), now); }
      idle := now - lastRefill > TB.MAX_IDLE_TIME && tokens >= maxTokens as real;
    }
  }

  class SimpleBucketRateLimiter {
    const config: Config
    var limiters: map<string, SimpleLimiter>

    constructor (config: Config)
      ensures Valid() && this.config == config && Buckets() == map[]
    {
      this.config := config;
      limiters := map[];
    }

    ghost predicate Valid()
      reads this
    {
      forall k, l | k in limiters && l in limiters && k != l :: limiters[k] != limiters[l]
    }

    ghost function Buckets(): Store
      reads this, limiters.Values
    {
      map k | k in limiters :: limiters[k].Value()
    }

    /** Creates the key's limiter if it has none; an existing one is never replaced. */
    method GetLimiter(key: string, now: int) returns (limiter: SimpleLimiter)
      requires Valid()
      modifies this
      ensures Valid() && key in limiters && limiters[key] == limiter
      ensures Buckets() == old(Buckets())[key := BucketFor(config, old(Buckets()), key, now)]
      ensures limiter.Value() == BucketFor(config, old(Buckets()), key, now)
      ensures limiters == old(limiters)[key := limiter]
      ensures if key in old(limiters) then limiter == old(limiters)[key] else fresh(limiter)
      ensures fresh(limiters.Values - old(limiters.Values))
    {
      if key in limiters {
        limiter := limiters[key];
      } else {
        limiter := new SimpleLimiter(config.rate, config.burst, now);
        limiters := limiters[key := limiter];
      }
    }

    method Allow(cancelled: bool, key: string, now: int) returns (allowed: bool)
      requires Valid()
      modifies this, limiters.Values
      ensures Valid() && fresh(limiters.Values - old(limiters.Values))
      ensures Buckets() == Step(config, old(Buckets()), Op.Allow(key, cancelled, now))
      ensures Verdict(allowed) == OutputOf(config, old(Buckets()), Op.Allow(key, cancelled, now))
    {
      if key == "" { return false; }
      if cancelled { return false; }
      var limiter := GetLimiter(key, now);
      allowed := TakeToken(key, limiter, old(Buckets()), now);
    }

    /** The call of the limiter's allow, which no other limiter notices; `m` is the store before the limiter was
        looked up. */
    method TakeToken(key: string, limiter: SimpleLimiter, ghost m: Store, now: int) returns (allowed: bool)
      requires Valid() && key in limiters && limiters[key] == limiter && key != ""
      requires Buckets() == m[key := BucketFor(config, m, key, now)]
      modifies limiter
      ensures Buckets() == Step(config, m, Op.Allow(key, false, now))
      ensures Verdict(allowed) == OutputOf(config, m, Op.Allow(key, false, now))
    {
      assert limiter.Value() == Buckets()[key];
      allowed := limiter.Allow(now);
      assert forall k | k in limiters && k != key :: limiters[k] != limiter;
    }

    method Reset(key: string, now: int) returns (ok: bool)
      requires Valid()
      modifies this
      ensures Valid() && limiters.Values <= old(limiters.Values)
      ensures Buckets() == Step(config, old(Buckets()), Op.Reset(key, now))
      ensures Outcome(ok) == OutputOf(config, old(Buckets()), Op.Reset(key, now))
    {
      if key == "" { return false; }
      limiters := limiters - {key};
      return true;
    }

    method Stats(key: string, now: int) returns (stats: TB.Stats)
      requires Valid()
      modifies this
      ensures Valid() && fresh(limiters.Values - old(limiters.Values))
      ensures Buckets() == Step(config, old(Buckets()), Op.Stats(key, now))
      ensures Report(stats) == OutputOf(config, old(Buckets()), Op.Stats(key, now))
    {
      if key == "" {
        return TB.Stats(config.burst, 0, now + 3_600_000_000_000, 1_000_000_000);
      }
      var limiter := GetLimiter(key, now);
      stats := limiter.Stats(now);
    }

    /** Deletes the idle limiters while it goes through the map, in whatever order the map gives its keys. */
    method Cleanup(cancelled: bool, now: int) returns (ok: bool)
      requires Valid()
      modifies this
      ensures Valid() && limiters.Values <= old(limiters.Values)
      ensures Buckets() == Step(config, old(Buckets()), Op.Cleanup(cancelled, now))
      ensures Outcome(ok) == OutputOf(config, old(Buckets()), Op.Cleanup(cancelled, now))
    {
      if cancelled { return false; }
      var keys := limiters.Keys;
      while keys != {}
        invariant keys <= limiters.Keys <= old(limiters.Keys)
        invariant forall k | k in limiters :: limiters[k] == old(limiters[k])
        invariant forall k | k in old(limiters) && k !in keys ::
                    k in limiters <==> !TB.Idle(old(limiters[k].Value()), now)
        decreases |keys|
      {
        var key :| key in keys;
        keys := keys - {key};
        var idle := limiters[key].IsIdle(now);
        if idle {
          limiters := limiters - {key};
        }
      }
      return true;
    }
  }
}
