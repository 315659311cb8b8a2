/**
 How tight the limiter's promises are: runs that reach the sliding bound exactly, for every
 number of windows, and the exact condition under which a bucket reopens.
 */
module RateLimitLimits {
  import opened Wrappers
  import opened RateLimitMachine
  import opened FixedWindow
  import opened RateLimitHistory

  // ----- Runs of requests that have one bucket each -------------------------------------------

  /** A request with the one bucket `b`, run from start to end as request number `r`. */
  function Single(b: Bucket, r: nat): seq<Event> {
    [Arrive([b]), Step(r)]
  }

  predicate Usable(p: Params, b: Bucket) {
    p.rank(b.key) < p.ranks && b.limit == p.limitOf(b.key)
  }

  /** `s'` is `s` after one more hit on `b.key`, which returned `count`. */
  predicate OneHitLater(p: Params, s: State, s': State, b: Bucket, count: nat) {
    && s'.now == s.now
    && |s'.procs| == |s.procs| + 1
    && KeyLog(s'.log, b.key) != []
    && Front(KeyLog(s'.log, b.key)) == KeyLog(s.log, b.key)
    && Last(KeyLog(s'.log, b.key)).time == s.now
    && Last(KeyLog(s'.log, b.key)).count == count
  }

  lemma StepRuns(p: Params, s: State, r: nat)
    requires Enabled(p, s, Step(r))
    ensures Feasible(p, s, [Step(r)]) && Run(p, s, [Step(r)]) == Next(p, s, Step(r))
  {
    var one := [Step(r)];
    var s' := Next(p, s, Step(r));
    assert one[0] == Step(r) && one[1..] == [];
    assert Feasible(p, s', []) && Run(p, s', []) == s';
  }

  lemma SingleRuns(p: Params, s: State, b: Bucket)
    requires Usable(p, b)
    ensures var arrived := Next(p, s, Arrive([b]));
            && Enabled(p, arrived, Step(|s.procs|))
            && Feasible(p, s, Single(b, |s.procs|))
            && Run(p, s, Single(b, |s.procs|)) == Next(p, arrived, Step(|s.procs|))
  {
    hide Script;
    var r := |s.procs|;
    var arrived := Next(p, s, Arrive([b]));
    assert arrived.procs[r] == Proc([b], 0, Running);
    StepRuns(p, arrived, r);
    assert Single(b, r)[1..] == [Step(r)];
  }

  lemma SingleHits(p: Params, s: State, b: Bucket)
    requires Usable(p, b)
    ensures Feasible(p, s, Single(b, |s.procs|))
    ensures var s' := Run(p, s, Single(b, |s.procs|));
            var before := Peek(s.store, s.now, b.key);
            var count := Count(s.store, s.now, b.key) + 1;
            && OneHitLater(p, s, s', b, count)
            && b.key in s'.store
            && s'.store[b.key].count == count
            && s'.store[b.key].expiry ==
               if count == 1 && p.expirable then Some(s.now + p.window)
               else if before.Some? then before.value.expiry else None
  {
    hide Run, Feasible, Single;
    SingleRuns(p, s, b);
    var arrived := Next(p, s, Arrive([b]));
    assert arrived.procs[|s.procs|] == Proc([b], 0, Running);
    var s' := Next(p, arrived, Step(|s.procs|));
    assert Front(s'.log) == s.log;
    assert KeyLog(s'.log, b.key) == KeyLog(s.log, b.key) + [Last(s'.log)];
  }

  /** `n` such requests one after another. */
  function Burst(b: Bucket, first: nat, n: nat): seq<Event> {
    if n == 0 then [] else Burst(b, first, n - 1) + Single(b, first + n - 1)
  }

  function ExpiryOf(store: Store, now: nat, key: string): Option<nat> {
    var e := Peek(store, now, key);
    if e.Some? then e.value.expiry else None
  }

  /** From `s` to `s'`, `n` hits of a bucket with this much room pass, and open a generation if there
      was none. */
  predicate AllPass(p: Params, s: State, s': State, b: Bucket, n: nat, from: int, until: int) {
    && s'.now == s.now
    && |s'.procs| == |s.procs| + n
    && Count(s'.store, s.now, b.key) == Count(s.store, s.now, b.key) + n
    && PassesIn(KeyLog(s'.log, b.key), b.limit, from, until)
       == PassesIn(KeyLog(s.log, b.key), b.limit, from, until) + n
    && ExpiryOf(s'.store, s.now, b.key) ==
       if n > 0 && Count(s.store, s.now, b.key) == 0 then Some(s.now + p.window)
       else ExpiryOf(s.store, s.now, b.key)
  }

  lemma SinglePasses(p: Params, s: State, b: Bucket, from: int, until: int)
    requires p.window > 0 && p.expirable && Usable(p, b) && from <= s.now < until
    requires Count(s.store, s.now, b.key) < b.limit
    ensures Feasible(p, s, Single(b, |s.procs|))
    ensures AllPass(p, s, Run(p, s, Single(b, |s.procs|)), b, 1, from, until)
  {
    hide Run, Feasible, KeyLog, Single;
    SingleHits(p, s, b);
  }

  /** A burst that stays within the limit of a live bucket, or opens a new generation with one
      of an expired or unused one, passes in full. */
  lemma {:induction false} BurstPasses(p: Params, s: State, b: Bucket, n: nat, from: int, until: int)
    requires p.window > 0 && p.expirable && Usable(p, b) && from <= s.now < until
    requires Count(s.store, s.now, b.key) + n <= b.limit
    ensures Feasible(p, s, Burst(b, |s.procs|, n))
    ensures AllPass(p, s, Run(p, s, Burst(b, |s.procs|, n)), b, n, from, until)
  {
    if n > 0 {
      hide Run, Feasible, KeyLog, PassesIn, Count, ExpiryOf, Single;
      BurstPasses(p, s, b, n - 1, from, until);
      var mid := Run(p, s, Burst(b, |s.procs|, n - 1));
      SinglePasses(p, mid, b, from, until);
      RunConcat(p, s, Burst(b, |s.procs|, n - 1), Single(b, |mid.procs|));
    }
  }

  lemma TickRuns(p: Params, s: State, d: nat)
    ensures Feasible(p, s, [Tick(d)]) && Run(p, s, [Tick(d)]) == s.(now := s.now + d)
  {
    assert [Tick(d)][1..] == [];
    assert Feasible(p, Next(p, s, Tick(d)), []);
  }

  /** One hit at time 0, then `limit - 1` more just before its window ends. */
  lemma LateBurst(p: Params, b: Bucket, until: int) returns (es: seq<Event>)
    requires p.window > 1 && p.expirable && Usable(p, b) && b.limit > 0 && until > p.window - 1
    ensures Feasible(p, Init(0), es)
    ensures var s := Run(p, Init(0), es);
            && s.now == p.window - 1
            && ExpiryOf(s.store, s.now, b.key) == Some(p.window)
            && PassesIn(KeyLog(s.log, b.key), b.limit, p.window - 1, until) == b.limit - 1
  {
    var s0 := Init(0);
    SingleHits(p, s0, b);
    var s1 := Run(p, s0, Single(b, 0));
    TickRuns(p, s1, p.window - 1);
    RunConcat(p, s0, Single(b, 0), [Tick(p.window - 1)]);
    var s2 := Run(p, s1, [Tick(p.window - 1)]);
    assert PassesIn(KeyLog(s2.log, b.key), b.limit, p.window - 1, until) == 0;
    BurstPasses(p, s2, b, b.limit - 1, p.window - 1, until);
    es := Single(b, 0) + [Tick(p.window - 1)];
    RunConcat(p, s0, es, Burst(b, |s2.procs|, b.limit - 1));
    es := es + Burst(b, |s2.procs|, b.limit - 1);
  }

  /** Whatever is left of a generation goes by, and then the next one begins with a full burst. */
  lemma NextGeneration(p: Params, b: Bucket, es: seq<Event>, end: nat, from: int, until: int) returns (longer: seq<Event>)
    requires p.window > 0 && p.expirable && Usable(p, b) && b.limit > 0 && Feasible(p, Init(0), es)
    requires var s := Run(p, Init(0), es);
             s.now <= end && ExpiryOf(s.store, s.now, b.key) == Some(end)
    requires from <= end < until
    ensures Feasible(p, Init(0), longer)
    ensures var s, s' := Run(p, Init(0), es), Run(p, Init(0), longer);
            && s'.now == end
            && ExpiryOf(s'.store, end, b.key) == Some(end + p.window)
            && PassesIn(KeyLog(s'.log, b.key), b.limit, from, until)
               == PassesIn(KeyLog(s.log, b.key), b.limit, from, until) + b.limit
  {
    hide KeyLog, PassesIn, Burst, Run, Feasible;
    var s := Run(p, Init(0), es);
    var wait := end - s.now;
    TickRuns(p, s, wait);
    RunConcat(p, Init(0), es, [Tick(wait)]);
    var waited := es + [Tick(wait)];
    var s1 := Run(p, s, [Tick(wait)]);
    BurstPasses(p, s1, b, b.limit, from, until);
    RunConcat(p, Init(0), waited, Burst(b, |s1.procs|, b.limit));
    longer := waited + Burst(b, |s1.procs|, b.limit);
  }

  /** The same, followed by `k` full generations, each begun the moment the one before it ends. */
  lemma {:induction false} SaturatedRun(p: Params, b: Bucket, k: nat, until: int) returns (es: seq<Event>)
    requires p.window > 1 && p.expirable && Usable(p, b) && b.limit > 0
    requires until > k * p.window && until > p.window - 1
    ensures Feasible(p, Init(0), es)
    ensures var s := Run(p, Init(0), es);
            && s.now == (if k == 0 then p.window - 1 else k * p.window)
            && ExpiryOf(s.store, s.now, b.key) == Some((k + 1) * p.window)
            && PassesIn(KeyLog(s.log, b.key), b.limit, p.window - 1, until) == (k + 1) * b.limit - 1
  {
    hide KeyLog, PassesIn, Run, Feasible, ExpiryOf, Count;
    if k == 0 {
      es := LateBurst(p, b, until);
    } else {
      OneLess(k, p.window);
      es := SaturatedRun(p, b, k - 1, until);
      es := NextGeneration(p, b, es, k * p.window, p.window - 1, until);
      assert (k + 1) * p.window == k * p.window + p.window;
      assert (k + 1) * b.limit == k * b.limit + b.limit;
    }
  }

  lemma OneLess(k: nat, n: nat)
    requires k > 0
    ensures (k - 1) * n == k * n - n && 0 <= (k - 1) * n && n <= k * n
  {
  }

  /** The sliding bound cannot be lowered: for every bucket and every k >= 1 a run from an empty
      store lets through exactly (k + 1) * limit - 1 hits in one interval of k windows. */
  lemma SlidingBoundIsReached(p: Params, b: Bucket, k: nat) returns (es: seq<Event>, from: int)
    requires p.window > 1 && p.expirable && Usable(p, b) && b.limit > 0 && k > 0
    ensures Feasible(p, Init(0), es)
    ensures PassesIn(KeyLog(Run(p, Init(0), es).log, b.key), b.limit, from, from + k * p.window)
            == (k + 1) * b.limit - 1
  {
    hide KeyLog, PassesIn, Run, Feasible, ExpiryOf;
    from := p.window - 1;
    OneLess(k, p.window);
    es := SaturatedRun(p, b, k, from + k * p.window);
  }

  // ----- When EXPIRE refuses the window ---------------------------------------------------------

  /** If EXPIRE refuses the window, a bucket that has been charged `limit` times turns every
      later request away, however much time passes. */
  lemma RefusedWindowLocksBucket(p: Params, t0: nat, es: seq<Event>, key: string, i: nat)
    requires !p.expirable && Feasible(p, Init(t0), es)
    requires p.limitOf(key) <= i < |KeyLog(Run(p, Init(t0), es).log, key)|
    ensures !Passes(KeyLog(Run(p, Init(t0), es).log, key)[i], p.limitOf(key))
  {
    RunKeepsStuck(p, Init(t0), es, key);
  }

  /** A hit at or after the end of the window of the generation before it opens a new one. */
  predicate Reopens(window: nat, hits: seq<Hit>) {
    forall i :: 0 < i < |hits| && hits[i].time >= Start(hits[..i]) + window ==> hits[i].count == 1
  }

  ghost predicate AlwaysReopens(p: Params, key: string) {
    forall t0: nat, es | Feasible(p, Init(t0), es) ::
      Reopens(p.window, KeyLog(Run(p, Init(t0), es).log, key))
  }

  lemma WellTimedReopens(window: nat, hits: seq<Hit>)
    requires window > 0 && WellTimed(window, hits)
    ensures Reopens(window, hits)
  {
    forall i | 0 < i < |hits| && hits[i].time >= Start(hits[..i]) + window
      ensures hits[i].count == 1
    {
      PrefixWellTimed(window, hits, i);
      LastIsInItsWindow(window, hits[..i]);
      FirstHitAfterWindowReopens(window, hits, i, i);
    }
  }

  /** A bucket reopens after its window in every run exactly when EXPIRE takes the window. */
  lemma ReopensIffExpirable(p: Params, b: Bucket)
    requires p.window > 0 && Usable(p, b)
    ensures AlwaysReopens(p, b.key) <==> p.expirable
  {
    if p.expirable {
      forall t0: nat, es | Feasible(p, Init(t0), es)
        ensures Reopens(p.window, KeyLog(Run(p, Init(t0), es).log, b.key))
      {
        ReachableIsWellTimed(p, t0, es, b.key);
        WellTimedReopens(p.window, KeyLog(Run(p, Init(t0), es).log, b.key));
      }
    } else {
      var s0 := Init(0);
      SingleHits(p, s0, b);
      var s1 := Run(p, s0, Single(b, 0));
      TickRuns(p, s1, p.window);
      RunConcat(p, s0, Single(b, 0), [Tick(p.window)]);
      var s2 := Run(p, s1, [Tick(p.window)]);
      SingleHits(p, s2, b);
      var es := Single(b, 0) + [Tick(p.window)];
      RunConcat(p, s0, es, Single(b, 1));
      var hits := KeyLog(Run(p, s0, es + Single(b, 1)).log, b.key);
      assert hits[..1] == KeyLog(s2.log, b.key);
      assert Start(hits[..1]) == 0;
      assert !Reopens(p.window, hits) by {
        assert hits[1].time >= Start(hits[..1]) + p.window && hits[1].count != 1;
      }
    }
  }
}
