/**
 The limiter's promises for the configurations the loader accepts.  By `AcceptedIsSound` every
 accepted configuration has sound rate limits, which is all that is asked for here.
 */
module ConfiguredLimiter {
  import opened Wrappers
  import opened Numbers
  import opened Config
  import opened RateLimitMachine
  import opened RateLimitKeys
  import opened FixedWindow
  import opened RateLimitHistory
  import opened RateLimitLimits

  /** What the protocol needs of a configuration. */
  lemma SoundIsUsable(c: RateLimitConfig, expireMax: nat, kind: Kind, text: string)
    requires SoundRateLimits(c)
    ensures ForConfig(c, expireMax).window >= 1000
    ensures Usable(ForConfig(c, expireMax), BucketOf(c, kind, text))
    ensures ForConfig(c, expireMax).limitOf(Key(kind, text)) == KindLimit(c, kind) > 0
  {
    hide Key, SplitKey;
    KeyFacts(c, kind, text);
  }

  /** With sound rate limits no interval of k windows ever lets through more than
      (k + 1) * limit - 1 requests of one route, address or user. */
  lemma ConfiguredBound(
    c: RateLimitConfig, expireMax: nat, kind: Kind, text: string, t0: nat, es: seq<Event>, from: int, k: nat)
    requires SoundRateLimits(c) && k > 0
    requires Feasible(ForConfig(c, expireMax), Init(t0), es)
    ensures var hits := KeyLog(Run(ForConfig(c, expireMax), Init(t0), es).log, Key(kind, text));
            PassesIn(hits, KindLimit(c, kind), from, from + k * (c.windowSecs * 1000)) <= (k + 1) * KindLimit(c, kind) - 1
  {
    SoundIsUsable(c, expireMax, kind, text);
    SlidingWindowBound(ForConfig(c, expireMax), t0, es, Key(kind, text), from, k);
  }

  /** And if EXPIRE takes the window, some run does let that many through, for every bucket and k. */
  lemma ConfiguredBoundIsReached(c: RateLimitConfig, expireMax: nat, kind: Kind, text: string, k: nat)
    returns (es: seq<Event>, from: int)
    requires SoundRateLimits(c) && c.windowSecs <= expireMax && k > 0
    ensures var p := ForConfig(c, expireMax);
            && Feasible(p, Init(0), es)
            && PassesIn(KeyLog(Run(p, Init(0), es).log, Key(kind, text)), KindLimit(c, kind),
                        from, from + k * (c.windowSecs * 1000))
               == (k + 1) * KindLimit(c, kind) - 1
  {
    SoundIsUsable(c, expireMax, kind, text);
    es, from := SlidingBoundIsReached(ForConfig(c, expireMax), BucketOf(c, kind, text), k);
  }

  /** With sound rate limits, every bucket reopens after its window in every run exactly when the
      configured window is one that EXPIRE takes. */
  lemma ConfiguredReopening(c: RateLimitConfig, expireMax: nat, kind: Kind, text: string)
    requires SoundRateLimits(c)
    ensures AlwaysReopens(ForConfig(c, expireMax), Key(kind, text)) <==> c.windowSecs <= expireMax
  {
    SoundIsUsable(c, expireMax, kind, text);
    ReopensIffExpirable(ForConfig(c, expireMax), BucketOf(c, kind, text));
  }

  /** The loader does not ask that EXPIRE take the window: whatever EXPIRE's largest argument
      below 2^64 - 1, changing only the window of an accepted configuration gives one that is
      accepted too and whose buckets do not reopen. */
  lemma SomeAcceptedWindowLocks(platform: Platform, c: AppConfig, expireMax: nat, kind: Kind, text: string)
    requires Sound(platform, c) && expireMax < U64_MAX
    ensures var locked := c.(rateLimits := c.rateLimits.(windowSecs := expireMax + 1));
            && FromSource(platform, locked.serviceName, PrintedSource(locked)) == Ok(locked)
            && !AlwaysReopens(ForConfig(locked.rateLimits, expireMax), Key(kind, text))
  {
    hide FromSource;
    var locked := c.(rateLimits := c.rateLimits.(windowSecs := expireMax + 1));
    assert Sound(platform, locked) by {
      hide SoundHttp, SoundDatabases, SoundJwt, SoundQueues, SoundObjectStorage;
    }
    ConfigRoundTrip(platform, locked);
    ConfiguredReopening(locked.rateLimits, expireMax, kind, text);
  }
}
