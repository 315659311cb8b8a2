/**
 The rate limiter as a concurrent protocol over a timed store.

 Redis is a map from key to (count, expiry).  The Lua script is one atomic step, because
 Redis runs a script to its end before anything else.  A request is a list of buckets and
 the number of them it has charged; it takes the connection lock once per bucket, so the
 steps of different requests interleave freely.  Time is a number of milliseconds.
 */
module RateLimitMachine {
  import opened Wrappers

  datatype Entry = Entry(count: nat, expiry: Option<nat>)

  type Store = map<string, Entry>

  /** A bucket of a request: the Redis key and the number of requests it lets through. */
  datatype Bucket = Bucket(key: string, limit: nat)

  /**
   What the protocol depends on.  `window` is in milliseconds.  `expirable` says whether the
   store's EXPIRE takes that window.  `rank` and `limitOf` give each key its kind's position
   (below `ranks`) in a bucket list and its kind's limit.
   */
  datatype Params = Params(
    window: nat,
    expirable: bool,
    ranks: nat,
    rank: string -> nat,
    limitOf: string -> nat)

  // ----- The store ------------------------------------------------------------------------

  predicate Live(e: Entry, now: nat) {
    e.expiry.None? || now < e.expiry.value
  }

  /** What the store answers for a key: an expired entry counts as absent. */
  function Peek(store: Store, now: nat, key: string): Option<Entry> {
    if key in store && Live(store[key], now) then Some(store[key]) else None
  }

  function Count(store: Store, now: nat, key: string): nat {
    var e := Peek(store, now, key);
    if e.Some? then e.value.count else 0
  }

  /** INCR: adds one and keeps the time to live; a new key starts at 1 without one. */
  function Incr(store: Store, now: nat, key: string): Store {
    var e := Peek(store, now, key);
    store[key := if e.Some? then Entry(e.value.count + 1, e.value.expiry) else Entry(1, None)]
  }

  /** The Lua script: INCR, then EXPIRE if the count became 1.  A refused EXPIRE makes the
      call fail after the INCR has been done; scripts are not rolled back. */
  function Script(p: Params, store: Store, now: nat, key: string): (Store, Result<nat, AppError>) {
    var incremented := Incr(store, now, key);
    var current := incremented[key].count;
    if current != 1 then
      (incremented, Ok(current))
    else if p.expirable then
      (incremented[key := Entry(1, Some(now + p.window))], Ok(current))
    else
      (incremented, Err(ServiceUnavailable("rate limiter unavailable")))
  }

  // ----- One request on its own -----------------------------------------------------------

  datatype Status = Running | Admitted | Denied | Unavailable

  datatype Walked = Walked(store: Store, charged: nat, status: Status)

  /** `check_buckets` from bucket `i` on, with no other request in between; `clock[j]` is the
      time at which bucket j's script runs. */
  function Walk(p: Params, store: Store, clock: seq<nat>, buckets: seq<Bucket>, i: nat): Walked
    requires i <= |buckets| == |clock|
    decreases |buckets| - i
  {
    if i == |buckets| then Walked(store, i, Admitted)
    else
      var (store', reply) := Script(p, store, clock[i], buckets[i].key);
      if reply.Err? then Walked(store', i + 1, Unavailable)
      else if reply.value > buckets[i].limit then Walked(store', i + 1, Denied)
      else Walk(p, store', clock, buckets, i + 1)
  }

  /** A clock that does not move. */
  function Still(now: nat, n: nat): seq<nat> {
    seq(n, _ => now)
  }

  // ----- Many requests --------------------------------------------------------------------

  /** A request: its buckets, how many it has charged so far, and its answer. */
  datatype Proc = Proc(buckets: seq<Bucket>, charged: nat, status: Status)

  /** One increment: which request made it, on which key, when, and the count it returned. */
  datatype Hit = Hit(req: nat, key: string, time: nat, count: nat)

  datatype State = State(store: Store, now: nat, procs: seq<Proc>, log: seq<Hit>)

  datatype Event =
    | Arrive(buckets: seq<Bucket>)  // a request starts; its number is its place in procs
    | Step(req: nat)                // a request charges its next bucket
    | Tick(millis: nat)             // the clock advances
    | Reap(key: string)             // the store drops an expired key

  /** Bucket lists as requests build them: ranks strictly increase, limits follow the key. */
  predicate WellFormed(p: Params, buckets: seq<Bucket>) {
    && (forall i :: 0 <= i < |buckets| ==> p.rank(buckets[i].key) < p.ranks)
    && (forall i :: 0 <= i < |buckets| ==> buckets[i].limit == p.limitOf(buckets[i].key))
    && (forall i, j :: 0 <= i < j < |buckets| ==> p.rank(buckets[i].key) < p.rank(buckets[j].key))
  }

  function Init(now: nat): State {
    State(map[], now, [], [])
  }

  predicate Enabled(p: Params, s: State, e: Event) {
    match e
    case Arrive(buckets) => WellFormed(p, buckets)
    case Step(r) =>
      r < |s.procs| && s.procs[r].status.Running? && s.procs[r].charged < |s.procs[r].buckets|
    case Tick(_) => true
    case Reap(key) => key in s.store && !Live(s.store[key], s.now)
  }

  /** The answer a request has after charging a bucket with this reply. */
  function StatusAfter(q: Proc, reply: Result<nat, AppError>): Status
    requires q.charged < |q.buckets|
  {
    if reply.Err? then Unavailable
    else if reply.value > q.buckets[q.charged].limit then Denied
    else if q.charged + 1 == |q.buckets| then Admitted
    else Running
  }

  function Next(p: Params, s: State, e: Event): State
    requires Enabled(p, s, e)
  {
    match e
    case Arrive(buckets) =>
      s.(procs := s.procs + [Proc(buckets, 0, if buckets == [] then Admitted else Running)])
    case Step(r) =>
      var q := s.procs[r];
      var key := q.buckets[q.charged].key;
      var (store', reply) := Script(p, s.store, s.now, key);
      State(store',
            s.now,
            s.procs[r := Proc(q.buckets, q.charged + 1, StatusAfter(q, reply))],
            s.log + [Hit(r, key, s.now, store'[key].count)])
    case Tick(d) => s.(now := s.now + d)
    case Reap(key) => s.(store := s.store - {key})
  }

  predicate Feasible(p: Params, s: State, es: seq<Event>)
    decreases |es|
  {
    es == [] || (Enabled(p, s, es[0]) && Feasible(p, Next(p, s, es[0]), es[1..]))
  }

  function Run(p: Params, s: State, es: seq<Event>): State
    requires Feasible(p, s, es)
    decreases |es|
  {
    if es == [] then s else Run(p, Next(p, s, es[0]), es[1..])
  }

  lemma {:induction false} RunConcat(p: Params, s: State, es: seq<Event>, fs: seq<Event>)
    requires Feasible(p, s, es) && Feasible(p, Run(p, s, es), fs)
    ensures Feasible(p, s, es + fs) && Run(p, s, es + fs) == Run(p, Run(p, s, es), fs)
    decreases |es|
  {
    if es == [] {
      assert es + fs == fs;
    } else {
      RunConcat(p, Next(p, s, es[0]), es[1..], fs);
      assert (es + fs)[1..] == es[1..] + fs;
    }
  }

  // ----- The limiter as the program has it --------------------------------------------------

  /** The limiter: the Redis counters it reaches through its connection. */
  class RateLimiter {
    var store: Store
    const params: Params

    constructor (params: Params)
      ensures store == map[] && this.params == params
    {
      store := map[];
      this.params := params;
    }

    method IncrementBucket(key: string, now: nat) returns (reply: Result<nat, AppError>)
      modifies this`store
      ensures (store, reply) == Script(params, old(store), now, key)
    {
      // INCR
      var current := 1;
      if key in store && Live(store[key], now) {
        current := store[key].count + 1;
        store := store[key := Entry(current, store[key].expiry)];
      } else {
        store := store[key := Entry(1, None)];
      }
      // EXPIRE
      if current == 1 {
        if !params.expirable {
          return Err(ServiceUnavailable("rate limiter unavailable"));
        }
        store := store[key := Entry(1, Some(now + params.window))];
      }
      return Ok(current);
    }

    /** Walks the buckets in order and stops at the first one exceeded.  `clock[i]` is the
        time at which the i-th script runs. */
    method CheckBuckets(buckets: seq<Bucket>, clock: seq<nat>) returns (r: Result<(), AppError>)
      requires |clock| == |buckets|
      modifies this`store
      ensures var w := Walk(params, old(store), clock, buckets, 0);
              && store == w.store
              && (r.Ok? <==> w.status == Admitted)
              && (r == Err(RateLimited("rate limit exceeded")) <==> w.status == Denied)
              && (r == Err(ServiceUnavailable("rate limiter unavailable")) <==> w.status == Unavailable)
    {
      ghost var w := Walk(params, store, clock, buckets, 0);
      var i := 0;
      while i < |buckets|
        invariant 0 <= i <= |buckets|
        invariant Walk(params, store, clock, buckets, i) == w
      {
        var reply := IncrementBucket(buckets[i].key, clock[i]);
        if reply.Err? {
          return Err(reply.error);
        }
        if reply.value > buckets[i].limit {
          return Err(RateLimited("rate limit exceeded"));
        }
        i := i + 1;
      }
      return Ok(());
    }
  }
}
