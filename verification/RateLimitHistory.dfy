/**
 What every run of the protocol keeps, under every interleaving: the counters are a function of
 the log of increments, each request charges a prefix of its buckets, and nothing is lost.
 */
module RateLimitHistory {
  import opened Wrappers
  import opened RateLimitMachine
  import opened FixedWindow

  /** The hits on one key, in order. */
  function KeyLog(log: seq<Hit>, key: string): (hits: seq<Hit>)
    ensures forall i :: 0 <= i < |hits| ==> hits[i].key == key
  {
    if log == [] then []
    else if Last(log).key == key then KeyLog(Front(log), key) + [Last(log)]
    else KeyLog(Front(log), key)
  }

  /** The hits made by one request, in order. */
  function RequestLog(log: seq<Hit>, req: nat): (hits: seq<Hit>)
    ensures forall i :: 0 <= i < |hits| ==> hits[i].req == req
  {
    if log == [] then []
    else if Last(log).req == req then RequestLog(Front(log), req) + [Last(log)]
    else RequestLog(Front(log), req)
  }

  function TotalCharged(procs: seq<Proc>): nat {
    if procs == [] then 0 else TotalCharged(procs[..|procs| - 1]) + procs[|procs| - 1].charged
  }

  // ----- Counters are determined by the log -------------------------------------------------

  /** One key's counter against its hits, when EXPIRE takes the window. */
  predicate KeyInv(p: Params, s: State, key: string) {
    var hits := KeyLog(s.log, key);
    && WellTimed(p.window, hits)
    && (hits == [] ==> key !in s.store)
    && (hits != [] ==>
          && Last(hits).time <= s.now
          && (if key in s.store
              then s.store[key] == Entry(Last(hits).count, Some(Start(hits) + p.window))
              else s.now >= Start(hits) + p.window))
  }

  ghost predicate CountersInv(p: Params, s: State) {
    forall key :: KeyInv(p, s, key)
  }

  /** What the script makes of a counter whose generation began at `start`. */
  lemma ScriptOnCounter(p: Params, store: Store, now: nat, key: string, count: nat, start: nat)
    requires p.expirable && count > 0
    requires if key in store then store[key] == Entry(count, Some(start + p.window)) else now >= start + p.window
    ensures key in Script(p, store, now, key).0
    ensures Script(p, store, now, key).0[key] ==
            if now < start + p.window then Entry(count + 1, Some(start + p.window)) else Entry(1, Some(now + p.window))
  {
  }

  lemma OtherKeysStay(p: Params, store: Store, now: nat, key: string, other: string)
    requires key != other
    ensures other in Script(p, store, now, key).0 <==> other in store
    ensures other in store ==> Script(p, store, now, key).0[other] == store[other]
  {
  }

  lemma AppendHit(window: nat, hits: seq<Hit>, h: Hit)
    requires WellTimed(window, hits)
    requires hits == [] ==> h.count == 1
    requires hits != [] ==>
               && Last(hits).time <= h.time
               && Last(hits).count > 0
               && h.count == if h.time < Start(hits) + window then Last(hits).count + 1 else 1
    ensures WellTimed(window, hits + [h])
    ensures Start(hits + [h]) == if h.count == 1 then h.time else Start(hits)
  {
    assert Front(hits + [h]) == hits;
  }

  lemma StepKeepsKeyInv(p: Params, s: State, r: nat, key: string)
    requires p.window > 0 && p.expirable
    requires Enabled(p, s, Step(r)) && KeyInv(p, s, key)
    ensures KeyInv(p, Next(p, s, Step(r)), key)
  {
    hide Script, WellTimed, Start;
    var s' := Next(p, s, Step(r));
    var h := Last(s'.log);
    var hits := KeyLog(s.log, key);
    assert Front(s'.log) == s.log;
    if h.key != key {
      OtherKeysStay(p, s.store, s.now, h.key, key);
    } else {
      assert KeyLog(s'.log, key) == hits + [h];
      if hits == [] {
        FirstScript(p, s.store, s.now, key);
      } else {
        LastIsInItsWindow(p.window, hits);
        ScriptOnCounter(p, s.store, s.now, key, Last(hits).count, Start(hits));
      }
      AppendHit(p.window, hits, h);
    }
  }

  lemma FirstScript(p: Params, store: Store, now: nat, key: string)
    requires p.expirable && key !in store
    ensures key in Script(p, store, now, key).0
    ensures Script(p, store, now, key).0[key] == Entry(1, Some(now + p.window))
  {
  }

  lemma {:induction false} RunKeepsCounters(p: Params, s: State, es: seq<Event>)
    requires p.window > 0 && p.expirable
    requires Feasible(p, s, es) && CountersInv(p, s)
    ensures CountersInv(p, Run(p, s, es))
    decreases |es|
  {
    if es != [] {
      var s' := Next(p, s, es[0]);
      forall key ensures KeyInv(p, s', key) {
        assert KeyInv(p, s, key);
        if es[0].Step? {
          StepKeepsKeyInv(p, s, es[0].req, key);
        }
      }
      RunKeepsCounters(p, s', es[1..]);
    }
  }

  // ----- Counters that EXPIRE was refused for --------------------------------------------------

  /** One key's counter against its hits, when EXPIRE refuses the window. */
  predicate StuckInv(s: State, key: string) {
    var hits := KeyLog(s.log, key);
    && NeverResets(hits)
    && InTimeOrder(hits)
    && (hits != [] ==> Last(hits).time <= s.now)
    && (if hits == [] then key !in s.store
        else key in s.store && s.store[key] == Entry(|hits|, None))
  }

  lemma StepKeepsStuck(p: Params, s: State, r: nat, key: string)
    requires !p.expirable && Enabled(p, s, Step(r)) && StuckInv(s, key)
    ensures StuckInv(Next(p, s, Step(r)), key)
  {
    var s' := Next(p, s, Step(r));
    var h := Last(s'.log);
    assert Front(s'.log) == s.log;
    if h.key == key {
      assert KeyLog(s'.log, key) == KeyLog(s.log, key) + [h];
    }
  }

  lemma {:induction false} RunKeepsStuck(p: Params, s: State, es: seq<Event>, key: string)
    requires !p.expirable && Feasible(p, s, es) && StuckInv(s, key)
    ensures StuckInv(Run(p, s, es), key)
    decreases |es|
  {
    if es != [] {
      if es[0].Step? {
        StepKeepsStuck(p, s, es[0].req, key);
      }
      RunKeepsStuck(p, Next(p, s, es[0]), es[1..], key);
    }
  }

  // ----- Every key's hits -------------------------------------------------------------------

  /** The window that a state's counters have kept to so far: where EXPIRE is refused, one that
      has not ended yet. */
  function Span(p: Params, s: State): nat {
    if p.expirable then p.window else p.window + s.now + 1
  }

  /** Every key's hits, in every reachable state, are those of a fixed-window counter. */
  lemma ReachableIsWellTimed(p: Params, t0: nat, es: seq<Event>, key: string)
    requires p.window > 0 && Feasible(p, Init(t0), es)
    ensures var s := Run(p, Init(t0), es);
            WellTimed(Span(p, s), KeyLog(s.log, key))
  {
    var s := Run(p, Init(t0), es);
    if p.expirable {
      assert CountersInv(p, Init(t0));
      RunKeepsCounters(p, Init(t0), es);
      assert KeyInv(p, s, key);
    } else {
      RunKeepsStuck(p, Init(t0), es, key);
      NeverResetsIsWellTimed(Span(p, s), KeyLog(s.log, key));
    }
  }

  /** A key's counter in every reachable state: as long as there is one it agrees with the last
      hit, and it ends with the window of that hit's generation, or never if EXPIRE refused it. */
  lemma ReachableCounter(p: Params, t0: nat, es: seq<Event>, key: string)
    requires p.window > 0 && Feasible(p, Init(t0), es)
    ensures var s := Run(p, Init(t0), es);
            var hits := KeyLog(s.log, key);
            && (hits == [] ==> key !in s.store)
            && (hits != [] ==> Last(hits).time <= s.now)
            && (key in s.store ==> hits != [] && s.store[key].count == Last(hits).count
                                   && s.store[key].expiry == if p.expirable then Some(Start(hits) + p.window) else None)
            && (key !in s.store && hits != [] ==> p.expirable && s.now >= Start(hits) + p.window)
  {
    var s := Run(p, Init(t0), es);
    if p.expirable {
      assert CountersInv(p, Init(t0));
      RunKeepsCounters(p, Init(t0), es);
      assert KeyInv(p, s, key);
    } else {
      RunKeepsStuck(p, Init(t0), es, key);
    }
  }

  /** In every reachable state a live key's count is the number of logged hits on it since its
      generation began, its expiry is that beginning plus the window, and no key lacks one; unless
      EXPIRE refuses the window: then no key has one. */
  lemma CounterRefinesLog(p: Params, t0: nat, es: seq<Event>, key: string)
    requires p.window > 0 && Feasible(p, Init(t0), es)
    ensures var s := Run(p, Init(t0), es);
            var hits := KeyLog(s.log, key);
            && (key in s.store ==> (s.store[key].expiry.Some? <==> p.expirable))
            && match Peek(s.store, s.now, key)
               case Some(e) =>
                 && hits != []
                 && e == Entry(HitsIn(hits, Start(hits), s.now + 1),
                               if p.expirable then Some(Start(hits) + p.window) else None)
               case None =>
                 hits == [] || (p.expirable && s.now >= Start(hits) + p.window)
  {
    var s := Run(p, Init(t0), es);
    var hits := KeyLog(s.log, key);
    ReachableIsWellTimed(p, t0, es, key);
    ReachableCounter(p, t0, es, key);
    if hits != [] {
      GenerationAdmitsFirst(Span(p, s), hits, 0);
      WidenUntil(Span(p, s), hits, 0, Start(hits), Last(hits).time + 1, s.now + 1);
    }
  }

  // ----- What one bucket lets through -------------------------------------------------------

  /** After n hits in its generation exactly the first min(n, limit) were within the limit, in every
      reachable state, whatever happens to other keys in between. */
  lemma GenerationAdmission(p: Params, t0: nat, es: seq<Event>, key: string)
    requires p.window > 0 && Feasible(p, Init(t0), es)
    requires KeyLog(Run(p, Init(t0), es).log, key) != []
    ensures var hits := KeyLog(Run(p, Init(t0), es).log, key);
            var limit := p.limitOf(key);
            var until := Last(hits).time + 1;
            var n := HitsIn(hits, Start(hits), until);
            && PassesIn(hits, limit, Start(hits), until) == Min(n, limit)
            && (Passes(Last(hits), limit) <==> n <= limit)
  {
    var s := Run(p, Init(t0), es);
    ReachableIsWellTimed(p, t0, es, key);
    GenerationAdmitsFirst(Span(p, s), KeyLog(s.log, key), p.limitOf(key));
  }

  /** In any run from an empty store, any half-open interval of k windows lets through at most
      (k + 1) * limit - 1 charges of one bucket. */
  lemma SlidingWindowBound(p: Params, t0: nat, es: seq<Event>, key: string, from: int, k: nat)
    requires p.window > 0 && Feasible(p, Init(t0), es)
    requires p.limitOf(key) > 0 && k > 0
    ensures PassesIn(KeyLog(Run(p, Init(t0), es).log, key), p.limitOf(key), from, from + k * p.window)
            <= (k + 1) * p.limitOf(key) - 1
  {
    var s := Run(p, Init(t0), es);
    var hits := KeyLog(s.log, key);
    var span := Span(p, s);
    ReachableIsWellTimed(p, t0, es, key);
    SlidingBound(span, hits, p.limitOf(key), from, k);
    LongerSpan(k, p.window, span);
    LongerIntervalPassesMore(hits, p.limitOf(key), from, from + k * p.window, from + k * span);
  }

  lemma LongerSpan(k: nat, window: nat, span: nat)
    requires window <= span
    ensures k * window <= k * span
  {
    assert k * (span - window) >= 0;
    assert k * span == k * window + k * (span - window);
  }

  // ----- Each request charges a prefix --------------------------------------------------------

  /** One request against its own hits. */
  predicate RequestInv(p: Params, s: State, r: nat)
    requires r < |s.procs|
  {
    var q := s.procs[r];
    var hits := RequestLog(s.log, r);
    && WellFormed(p, q.buckets)
    && |hits| == q.charged <= |q.buckets|
    && (forall i :: 0 <= i < q.charged ==> hits[i].key == q.buckets[i].key)
    && (forall i :: 0 <= i < q.charged - 1 ==> hits[i].count <= q.buckets[i].limit)
    && match q.status
       case Running =>
         && q.charged < |q.buckets|
         && (q.charged > 0 ==> Last(hits).count <= q.buckets[q.charged - 1].limit)
       case Admitted =>
         && q.charged == |q.buckets|
         && (q.charged > 0 ==> Last(hits).count <= q.buckets[q.charged - 1].limit)
       case Denied =>
         && q.charged > 0
         && Last(hits).count > q.buckets[q.charged - 1].limit
       case Unavailable =>
         && q.charged > 0
         && !p.expirable
         && Last(hits).count == 1
  }

  ghost predicate RequestsInv(p: Params, s: State) {
    && (forall r :: 0 <= r < |s.procs| ==> RequestInv(p, s, r))
    && (forall i :: 0 <= i < |s.log| ==> s.log[i].req < |s.procs|)
    && TotalCharged(s.procs) == |s.log|
  }

  lemma {:induction false} ChargeOneMore(procs: seq<Proc>, r: nat, q: Proc)
    requires r < |procs|
    ensures TotalCharged(procs[r := q]) == TotalCharged(procs) - procs[r].charged + q.charged
  {
    var n := |procs| - 1;
    if r < n {
      ChargeOneMore(procs[..n], r, q);
      assert procs[r := q][..n] == procs[..n][r := q];
    } else {
      assert procs[r := q][..n] == procs[..n];
    }
  }

  lemma {:induction false} NoHitsOfLaterRequests(log: seq<Hit>, r: nat)
    requires forall i :: 0 <= i < |log| ==> log[i].req < r
    ensures RequestLog(log, r) == []
  {
    if log != [] {
      NoHitsOfLaterRequests(Front(log), r);
    }
  }

  lemma StepKeepsOwnRequest(p: Params, s: State, r: nat)
    requires Enabled(p, s, Step(r)) && RequestInv(p, s, r)
    ensures RequestInv(p, Next(p, s, Step(r)), r)
  {
    var s' := Next(p, s, Step(r));
    assert Front(s'.log) == s.log;
    assert RequestLog(s'.log, r) == RequestLog(s.log, r) + [Last(s'.log)];
  }

  lemma StepKeepsOtherRequest(p: Params, s: State, r: nat, o: nat)
    requires Enabled(p, s, Step(r)) && o < |s.procs| && o != r && RequestInv(p, s, o)
    ensures RequestInv(p, Next(p, s, Step(r)), o)
  {
    var s' := Next(p, s, Step(r));
    assert Front(s'.log) == s.log;
    assert RequestLog(s'.log, o) == RequestLog(s.log, o);
    assert s'.procs[o] == s.procs[o];
  }

  lemma StepKeepsRequests(p: Params, s: State, r: nat)
    requires RequestsInv(p, s) && Enabled(p, s, Step(r))
    ensures RequestsInv(p, Next(p, s, Step(r)))
  {
    var s' := Next(p, s, Step(r));
    ChargeOneMore(s.procs, r, s'.procs[r]);
    forall o | 0 <= o < |s'.procs| ensures RequestInv(p, s', o) {
      assert RequestInv(p, s, o);
      if o == r {
        StepKeepsOwnRequest(p, s, r);
      } else {
        StepKeepsOtherRequest(p, s, r, o);
      }
    }
  }

  lemma ArriveKeepsRequests(p: Params, s: State, buckets: seq<Bucket>)
    requires RequestsInv(p, s) && WellFormed(p, buckets)
    ensures RequestsInv(p, Next(p, s, Arrive(buckets)))
  {
    var s' := Next(p, s, Arrive(buckets));
    NoHitsOfLaterRequests(s.log, |s.procs|);
    assert s'.procs[..|s.procs|] == s.procs;
    forall o | 0 <= o < |s'.procs| ensures RequestInv(p, s', o) {
      if o < |s.procs| {
        assert RequestInv(p, s, o);
      }
    }
  }

  lemma {:induction false} RunKeepsRequests(p: Params, s: State, es: seq<Event>)
    requires Feasible(p, s, es) && RequestsInv(p, s)
    ensures RequestsInv(p, Run(p, s, es))
    decreases |es|
  {
    if es != [] {
      var s' := Next(p, s, es[0]);
      match es[0] {
        case Arrive(buckets) => ArriveKeepsRequests(p, s, buckets);
        case Step(r) => StepKeepsRequests(p, s, r);
        case _ =>
          forall o | 0 <= o < |s'.procs| ensures RequestInv(p, s', o) {
            assert RequestInv(p, s, o);
          }
      }
      RunKeepsRequests(p, s', es[1..]);
    }
  }

  /** A request's hits are exactly a prefix of its buckets, each once: all of them if it was
      admitted, and up to and including the first exceeded one if it was denied. */
  lemma PrefixCharging(p: Params, t0: nat, es: seq<Event>, r: nat)
    requires Feasible(p, Init(t0), es) && r < |Run(p, Init(t0), es).procs|
    ensures RequestInv(p, Run(p, Init(t0), es), r)
  {
    RunKeepsRequests(p, Init(t0), es);
  }

  // ----- One request with the clock moving ------------------------------------------------------

  /** Times from `i` on do not go back, nor before `now`. */
  predicate Forward(now: nat, clock: seq<nat>, i: nat) {
    && (forall k :: i <= k < |clock| ==> now <= clock[k])
    && (forall k, l :: i <= k < l < |clock| ==> clock[k] <= clock[l])
  }

  /** Request `r` charges its buckets `i` to `j - 1`, each at its time. */
  function TimedSteps(r: nat, now: nat, clock: seq<nat>, i: nat, j: nat): seq<Event>
    requires i <= j <= |clock| && Forward(now, clock, i)
    decreases j - i
  {
    if i == j then []
    else [Tick(clock[i] - now), Step(r)] + TimedSteps(r, clock[i], clock, i + 1, j)
  }

  lemma TickAndStep(p: Params, s: State, d: nat, r: nat, rest: seq<Event>)
    requires Enabled(p, s, Step(r))
    requires Feasible(p, Next(p, Next(p, s, Tick(d)), Step(r)), rest)
    ensures Feasible(p, s, [Tick(d), Step(r)] + rest)
    ensures Run(p, s, [Tick(d), Step(r)] + rest) == Run(p, Next(p, Next(p, s, Tick(d)), Step(r)), rest)
  {
    hide Script;
    var es := [Tick(d), Step(r)] + rest;
    assert es[1..] == [Step(r)] + rest && es[1..][1..] == rest;
  }

  /** `log'` is `log` with hits on the buckets `i` to `j - 1`, each at its time. */
  predicate LoggedAt(log': seq<Hit>, log: seq<Hit>, buckets: seq<Bucket>, clock: seq<nat>, i: nat, j: nat)
    requires i <= j <= |buckets| == |clock|
  {
    && |log'| == |log| + j - i
    && log <= log'
    && forall k :: i <= k < j ==> log'[|log| + k - i].time == clock[k] && log'[|log| + k - i].key == buckets[k].key
  }

  lemma NothingLogged(log: seq<Hit>, buckets: seq<Bucket>, clock: seq<nat>, i: nat)
    requires i <= |buckets| == |clock|
    ensures LoggedAt(log, log, buckets, clock, i, i)
  {
  }

  lemma LogOneMore(log2: seq<Hit>, log: seq<Hit>, h: Hit, buckets: seq<Bucket>, clock: seq<nat>, i: nat, j: nat)
    requires i < j <= |buckets| == |clock|
    requires h.time == clock[i] && h.key == buckets[i].key && LoggedAt(log2, log + [h], buckets, clock, i + 1, j)
    ensures LoggedAt(log2, log, buckets, clock, i, j)
  {
    assert log2[|log|] == (log + [h])[|log|];
    forall k | i < k < j ensures log2[|log| + k - i].time == clock[k] && log2[|log| + k - i].key == buckets[k].key {
      assert |log| + k - i == |log + [h]| + k - (i + 1);
    }
  }

  /** The walk of `CheckBuckets`, whatever the times of its scripts, is a run of the protocol in which
      the request steps at these times: same store, same answer, and the hits are logged at them. */
  lemma {:induction false} WalkIsARun(p: Params, s: State, r: nat, clock: seq<nat>)
    requires Enabled(p, s, Step(r)) && |clock| == |s.procs[r].buckets| && Forward(s.now, clock, s.procs[r].charged)
    ensures var q := s.procs[r];
            var w := Walk(p, s.store, clock, q.buckets, q.charged);
            && q.charged < w.charged <= |clock|
            && var es := TimedSteps(r, s.now, clock, q.charged, w.charged);
               && Feasible(p, s, es)
               && var s' := Run(p, s, es);
                  && s'.store == w.store
                  && s'.procs == s.procs[r := Proc(q.buckets, w.charged, w.status)]
                  && LoggedAt(s'.log, s.log, q.buckets, clock, q.charged, w.charged)
    decreases |s.procs[r].buckets| - s.procs[r].charged
  {
    hide Script, LoggedAt, Forward;
    var q := s.procs[r];
    var i := q.charged;
    TimesGoOn(s.now, clock, i);
    var w := Walk(p, s.store, clock, q.buckets, i);
    var s1 := Next(p, Next(p, s, Tick(clock[i] - s.now)), Step(r));
    var h := Last(s1.log);
    assert s1.log == s.log + [h];
    if s1.procs[r].status.Running? {
      WalkIsARun(p, s1, r, clock);
    } else {
      assert w.charged == i + 1 && w.store == s1.store && w.status == s1.procs[r].status by {
        if s1.procs[r].status.Admitted? {
          assert Walk(p, s1.store, clock, q.buckets, |q.buckets|).charged == |q.buckets|;
        }
      }
      assert Feasible(p, s1, []) && LoggedAt(s1.log, s1.log, q.buckets, clock, i + 1, i + 1) by {
        NothingLogged(s1.log, q.buckets, clock, i + 1);
      }
    }
    var rest := TimedSteps(r, clock[i], clock, i + 1, w.charged);
    TickAndStep(p, s, clock[i] - s.now, r, rest);
    LogOneMore(Run(p, s1, rest).log, s.log, h, q.buckets, clock, i, w.charged);
  }

  lemma TimesGoOn(now: nat, clock: seq<nat>, i: nat)
    requires Forward(now, clock, i) && i < |clock|
    ensures now <= clock[i] && Forward(clock[i], clock, i + 1)
  {
  }

  // ----- Dropping expired keys ------------------------------------------------------------------

  /** Two states that no request can tell apart, now or later. */
  ghost predicate Alike(s: State, t: State) {
    && s.now == t.now && s.procs == t.procs && s.log == t.log
    && forall key: string, time: nat :: time >= s.now ==> Peek(s.store, time, key) == Peek(t.store, time, key)
  }

  lemma ScriptsAlike(p: Params, store: Store, store': Store, now: nat, key: string)
    requires forall k: string, time: nat :: time >= now ==> Peek(store, time, k) == Peek(store', time, k)
    ensures var (after, reply) := Script(p, store, now, key);
            var (after', reply') := Script(p, store', now, key);
            && reply == reply'
            && key in after && key in after' && after[key] == after'[key]
            && forall k: string, time: nat :: time >= now ==> Peek(after, time, k) == Peek(after', time, k)
  {
    assert Peek(store, now, key) == Peek(store', now, key);
    var after, after' := Script(p, store, now, key).0, Script(p, store', now, key).0;
    forall k: string, time: nat | time >= now ensures Peek(after, time, k) == Peek(after', time, k) {
      assert Peek(store, time, k) == Peek(store', time, k);
    }
  }

  lemma EventsAlike(p: Params, s: State, t: State, e: Event)
    requires Alike(s, t) && Enabled(p, s, e) && !e.Reap?
    ensures Enabled(p, t, e) && Alike(Next(p, s, e), Next(p, t, e))
  {
    if e.Step? {
      hide Script, Peek;
      var q := s.procs[e.req];
      ScriptsAlike(p, s.store, t.store, s.now, q.buckets[q.charged].key);
    }
  }

  lemma ReapIsUnseen(p: Params, s: State, key: string)
    requires Enabled(p, s, Reap(key))
    ensures key !in Next(p, s, Reap(key)).store && Alike(Next(p, s, Reap(key)), s)
  {
  }

  function WithoutReaps(es: seq<Event>): seq<Event> {
    if es == [] then [] else (if es[0].Reap? then [] else [es[0]]) + WithoutReaps(es[1..])
  }

  /** When the store drops expired keys makes no difference: without these events the run gives the
      same answers, the same log, and the same counters from then on. */
  lemma {:induction false} ReapingMakesNoDifference(p: Params, s: State, t: State, es: seq<Event>)
    requires Feasible(p, s, es) && Alike(s, t)
    ensures Feasible(p, t, WithoutReaps(es)) && Alike(Run(p, s, es), Run(p, t, WithoutReaps(es)))
    decreases |es|
  {
    if es != [] {
      hide Next, Enabled, Alike;
      var s' := Next(p, s, es[0]);
      if es[0].Reap? {
        ReapIsUnseen(p, s, es[0].key);
        AlikeIsTransitive(s', s, t);
        ReapingMakesNoDifference(p, s', t, es[1..]);
        assert WithoutReaps(es) == WithoutReaps(es[1..]);
      } else {
        EventsAlike(p, s, t, es[0]);
        ReapingMakesNoDifference(p, s', Next(p, t, es[0]), es[1..]);
        assert WithoutReaps(es)[0] == es[0] && WithoutReaps(es)[1..] == WithoutReaps(es[1..]);
      }
    }
  }

  lemma AlikeIsTransitive(s: State, t: State, u: State)
    requires Alike(s, t) && Alike(t, u)
    ensures Alike(s, u)
  {
    forall key: string, time: nat | time >= s.now ensures Peek(s.store, time, key) == Peek(u.store, time, key) {
      assert Peek(s.store, time, key) == Peek(t.store, time, key);
    }
  }

  // ----- Conservation -------------------------------------------------------------------------

  /** The final counts of the generations that a later one has followed, added up. */
  function EndedCounts(hits: seq<Hit>): nat {
    if |hits| <= 1 then 0
    else EndedCounts(Front(hits)) + if Last(hits).count == 1 then Last(Front(hits)).count else 0
  }

  /** The final counts of all generations of one key, the last one included. */
  function GenerationCounts(hits: seq<Hit>): nat {
    if hits == [] then 0 else EndedCounts(hits) + Last(hits).count
  }

  lemma {:induction false} GenerationsAddUp(window: nat, hits: seq<Hit>)
    requires window > 0 && WellTimed(window, hits)
    ensures GenerationCounts(hits) == |hits|
  {
    if |hits| > 1 {
      GenerationsAddUp(window, Front(hits));
      LastIsInItsWindow(window, Front(hits));
    }
  }

  /** Generation counts added up over a list of keys. */
  function CountsOver(log: seq<Hit>, keys: seq<string>): nat {
    if keys == [] then 0 else GenerationCounts(KeyLog(log, keys[0])) + CountsOver(log, keys[1..])
  }

  function HitsOver(log: seq<Hit>, keys: seq<string>): nat {
    if keys == [] then 0 else |KeyLog(log, keys[0])| + HitsOver(log, keys[1..])
  }

  predicate Distinct(keys: seq<string>) {
    forall i, j :: 0 <= i < j < |keys| ==> keys[i] != keys[j]
  }

  lemma {:induction false} OneHitMore(log: seq<Hit>, keys: seq<string>)
    requires log != [] && Distinct(keys)
    ensures HitsOver(log, keys) == HitsOver(Front(log), keys) + if Last(log).key in keys then 1 else 0
  {
    if keys != [] {
      OneHitMore(log, keys[1..]);
    }
  }

  lemma {:induction false} EveryHitHasAKey(log: seq<Hit>, keys: seq<string>)
    requires Distinct(keys) && forall i :: 0 <= i < |log| ==> log[i].key in keys
    ensures HitsOver(log, keys) == |log|
  {
    if log == [] {
      NoHitsOver(keys);
    } else {
      EveryHitHasAKey(Front(log), keys);
      OneHitMore(log, keys);
    }
  }

  lemma {:induction false} NoHitsOver(keys: seq<string>)
    ensures HitsOver([], keys) == 0
  {
    if keys != [] {
      NoHitsOver(keys[1..]);
    }
  }

  lemma {:induction false} CountsAreHits(window: nat, log: seq<Hit>, keys: seq<string>)
    requires window > 0 && forall key :: WellTimed(window, KeyLog(log, key))
    ensures CountsOver(log, keys) == HitsOver(log, keys)
  {
    if keys != [] {
      GenerationsAddUp(window, KeyLog(log, keys[0]));
      CountsAreHits(window, log, keys[1..]);
    }
  }

  /** Nothing is charged twice or lost: over any run the final counts of all generations of all
      keys add up to the lengths of the prefixes that the requests have charged. */
  lemma Conservation(p: Params, t0: nat, es: seq<Event>, keys: seq<string>)
    requires p.window > 0 && Feasible(p, Init(t0), es) && Distinct(keys)
    requires forall i :: 0 <= i < |Run(p, Init(t0), es).log| ==> Run(p, Init(t0), es).log[i].key in keys
    ensures CountsOver(Run(p, Init(t0), es).log, keys) == TotalCharged(Run(p, Init(t0), es).procs)
  {
    var s := Run(p, Init(t0), es);
    RunKeepsRequests(p, Init(t0), es);
    EveryHitHasAKey(s.log, keys);
    forall key ensures WellTimed(Span(p, s), KeyLog(s.log, key)) {
      ReachableIsWellTimed(p, t0, es, key);
    }
    CountsAreHits(Span(p, s), s.log, keys);
  }

  // ----- Reopening ----------------------------------------------------------------------------

  lemma {:induction false} KeyLogGrows(p: Params, s: State, es: seq<Event>, key: string)
    requires Feasible(p, s, es)
    ensures KeyLog(s.log, key) <= KeyLog(Run(p, s, es).log, key)
    decreases |es|
  {
    if es != [] {
      var s' := Next(p, s, es[0]);
      if es[0].Step? {
        assert Front(s'.log) == s.log;
      }
      KeyLogGrows(p, s', es[1..], key);
    }
  }

  /** However requests keep coming, denied ones included, the first charge of a bucket at or
      after the end of its window returns 1 and, its limit being positive, passes. */
  lemma GuaranteedReopening(p: Params, t0: nat, es: seq<Event>, fs: seq<Event>, key: string, i: nat)
    requires p.window > 0 && p.expirable && p.limitOf(key) > 0
    requires Feasible(p, Init(t0), es) && Feasible(p, Run(p, Init(t0), es), fs)
    requires key in Run(p, Init(t0), es).store
    requires var s := Run(p, Init(t0), es);
             var hits := KeyLog(Run(p, s, fs).log, key);
             var opens := s.store[key].expiry;
             && |KeyLog(s.log, key)| <= i < |hits|
             && opens.Some?
             && hits[i].time >= opens.value
             && forall j :: |KeyLog(s.log, key)| <= j < i ==> hits[j].time < opens.value
    ensures var hits := KeyLog(Run(p, Run(p, Init(t0), es), fs).log, key);
            hits[i].count == 1 && Passes(hits[i], p.limitOf(key))
  {
    var s := Run(p, Init(t0), es);
    assert CountersInv(p, Init(t0));
    RunKeepsCounters(p, Init(t0), es);
    assert KeyInv(p, s, key);
    RunKeepsCounters(p, s, fs);
    assert KeyInv(p, Run(p, s, fs), key);
    KeyLogGrows(p, s, fs, key);
    var hits := KeyLog(Run(p, s, fs).log, key);
    var n := |KeyLog(s.log, key)|;
    assert hits[..n] == KeyLog(s.log, key);
    FirstHitAfterWindowReopens(p.window, hits, n, i);
  }
}
