/**
 While the clock does not move, every complete interleaving of any number of requests gives each
 request the answer, and leaves the counters, of some order in which they run one at a time.

 A request that passes a bucket must come before one that is denied at it.  Where EXPIRE refuses
 the window, the request that opens a counter is answered unavailable and must come before whatever
 else charges that counter.  A request that stops at a bucket has charged only buckets of lower rank
 before, so these constraints have no cycle: openers first, from the lowest rank to the highest, then
 admitted requests, then denied ones, from the highest rank to the lowest.
 */
module Serialisability {
  import opened Wrappers
  import opened RateLimitMachine

  // ----- What a set of requests does to one key -------------------------------------------------

  predicate Touches(q: Proc, key: string) {
    exists j :: 0 <= j < q.charged && j < |q.buckets| && q.buckets[j].key == key
  }

  /** The number of buckets a request has got through. */
  function Passed(q: Proc): nat {
    if (q.status.Denied? || q.status.Unavailable?) && q.charged > 0 then q.charged - 1 else q.charged
  }

  predicate PassesKey(q: Proc, key: string) {
    exists j :: 0 <= j < Passed(q) && j < |q.buckets| && q.buckets[j].key == key
  }

  predicate LastCharged(q: Proc, key: string) {
    0 < q.charged <= |q.buckets| && q.buckets[q.charged - 1].key == key
  }

  predicate DeniedAt(q: Proc, key: string) {
    q.status.Denied? && LastCharged(q, key)
  }

  /** EXPIRE was refused for the counter that the request has opened. */
  predicate UnavailableAt(q: Proc, key: string) {
    q.status.Unavailable? && LastCharged(q, key)
  }

  predicate ProcOk(p: Params, q: Proc) {
    && WellFormed(p, q.buckets)
    && q.charged <= |q.buckets|
    && (q.status.Running? ==> q.charged < |q.buckets|)
    && (q.status.Admitted? ==> q.charged == |q.buckets|)
    && (q.status.Denied? || q.status.Unavailable? ==> q.charged > 0)
  }

  /** How many of the requests meet `f`. */
  function CountIf(qs: seq<Proc>, f: Proc -> bool): nat {
    if qs == [] then 0
    else CountIf(qs[..|qs| - 1], f) + if f(qs[|qs| - 1]) then 1 else 0
  }

  function Toucher(key: string): Proc -> bool {
    q => Touches(q, key)
  }

  function Loser(key: string): Proc -> bool {
    q => DeniedAt(q, key)
  }

  function Opener(key: string): Proc -> bool {
    q => UnavailableAt(q, key)
  }

  function ChargeCount(qs: seq<Proc>, key: string): nat {
    CountIf(qs, Toucher(key))
  }

  function DenyCount(qs: seq<Proc>, key: string): nat {
    CountIf(qs, Loser(key))
  }

  function OpenCount(qs: seq<Proc>, key: string): nat {
    CountIf(qs, Opener(key))
  }

  lemma {:induction false} CountAfterUpdate(qs: seq<Proc>, r: nat, q: Proc, f: Proc -> bool)
    requires r < |qs|
    ensures CountIf(qs[r := q], f) == CountIf(qs, f) - (if f(qs[r]) then 1 else 0) + (if f(q) then 1 else 0)
  {
    var n := |qs| - 1;
    if r < n {
      CountAfterUpdate(qs[..n], r, q, f);
      assert qs[r := q][..n] == qs[..n][r := q];
    } else {
      assert qs[r := q][..n] == qs[..n];
    }
  }

  lemma {:induction false} CountConcat(qs: seq<Proc>, rs: seq<Proc>, f: Proc -> bool)
    ensures CountIf(qs + rs, f) == CountIf(qs, f) + CountIf(rs, f)
  {
    if rs == [] {
      assert qs + rs == qs;
    } else {
      var n := |rs| - 1;
      assert (qs + rs)[..|qs| + n] == qs + rs[..n];
      CountConcat(qs, rs[..n], f);
    }
  }

  lemma CountAppend(qs: seq<Proc>, q: Proc, f: Proc -> bool)
    ensures CountIf(qs + [q], f) == CountIf(qs, f) + if f(q) then 1 else 0
  {
    assert (qs + [q])[..|qs|] == qs;
  }

  lemma SplitAt(qs: seq<Proc>, i: nat, f: Proc -> bool)
    requires i < |qs|
    ensures CountIf(qs, f) == CountIf(qs[..i], f) + (if f(qs[i]) then 1 else 0) + CountIf(qs[i + 1..], f)
  {
    assert qs == qs[..i] + [qs[i]] + qs[i + 1..];
    CountAppend(qs[..i], qs[i], f);
    CountConcat(qs[..i] + [qs[i]], qs[i + 1..], f);
  }

  lemma TwoAreCounted(qs: seq<Proc>, i: nat, j: nat, f: Proc -> bool)
    requires i < j < |qs| && f(qs[i]) && f(qs[j])
    ensures CountIf(qs, f) >= 2
  {
    SplitAt(qs, i, f);
    SplitAt(qs[i + 1..], j - i - 1, f);
  }

  /** A count is 0 if nothing meets `f`, and no greater than that of a weaker condition `g`. */
  lemma {:induction false} CountCompare(qs: seq<Proc>, f: Proc -> bool, g: Proc -> bool)
    ensures (forall i :: 0 <= i < |qs| ==> !f(qs[i])) ==> CountIf(qs, f) == 0
    ensures (forall i :: 0 <= i < |qs| && f(qs[i]) ==> g(qs[i])) ==> CountIf(qs, f) <= CountIf(qs, g)
  {
    if qs != [] {
      CountCompare(qs[..|qs| - 1], f, g);
    }
  }

  // ----- Counters after n charges ------------------------------------------------------------------

  /** What a key shows after `n` more charges at time `now`. */
  function Bump(p: Params, e: Option<Entry>, now: nat, n: nat): Option<Entry> {
    if n == 0 then e
    else match e
         case None => Some(Entry(n, if p.expirable then Some(now + p.window) else None))
         case Some(x) => Some(Entry(x.count + n, x.expiry))
  }

  /** The key has no counter, and EXPIRE will be refused for the one that is opened. */
  predicate OpensInVain(p: Params, store: Store, now: nat, key: string) {
    !p.expirable && Peek(store, now, key).None?
  }

  /** What a charge of the key is told after `n` others at time `now`. */
  function Answer(p: Params, store: Store, now: nat, key: string, n: nat): Result<nat, AppError> {
    if n == 0 && OpensInVain(p, store, now, key) then Err(ServiceUnavailable("rate limiter unavailable"))
    else Ok(Count(store, now, key) + n + 1)
  }

  /** How many more charges of the key are not denied at time `now`.  One that is answered
      unavailable is not compared with the limit. */
  function Room(p: Params, store: Store, now: nat, key: string): nat {
    var c := Count(store, now, key);
    var free := if c < p.limitOf(key) then p.limitOf(key) - c else 0;
    if free == 0 && OpensInVain(p, store, now, key) then 1 else free
  }

  /** How many of `n` charges are answered unavailable. */
  function Openings(p: Params, store: Store, now: nat, key: string, n: nat): nat {
    if n > 0 && OpensInVain(p, store, now, key) then 1 else 0
  }

  /** Counters are positive, as INCR leaves them. */
  predicate Positive(store: Store) {
    forall key :: key in store ==> store[key].count > 0
  }

  lemma ScriptBumps(p: Params, store0: Store, store: Store, now: nat, key: string, n: nat)
    requires p.window > 0 && Positive(store0)
    requires Peek(store, now, key) == Bump(p, Peek(store0, now, key), now, n)
    ensures var (store', reply) := Script(p, store, now, key);
            && reply == Answer(p, store0, now, key, n)
            && store'[key].count == Count(store0, now, key) + n + 1
            && Peek(store', now, key) == Bump(p, Peek(store0, now, key), now, n + 1)
            && forall k :: k != key ==> Peek(store', now, k) == Peek(store, now, k)
  {
  }

  // ----- Any interleaving -----------------------------------------------------------------------------

  /** Of `n` charges of a key, those beyond its room were denied, and one was answered unavailable
      if the key's counter was opened in vain. */
  predicate AnswersAddUp(p: Params, store0: Store, now: nat, qs: seq<Proc>, key: string) {
    var n := ChargeCount(qs, key);
    && DenyCount(qs, key) == n - Min(n, Room(p, store0, now, key))
    && OpenCount(qs, key) == Openings(p, store0, now, key, n)
  }

  /** One key in a state reached from `store0` without moving the clock. */
  predicate KeyOk(p: Params, store0: Store, s: State, key: string) {
    && Peek(s.store, s.now, key) == Bump(p, Peek(store0, s.now, key), s.now, ChargeCount(s.procs, key))
    && AnswersAddUp(p, store0, s.now, s.procs, key)
  }

  ghost predicate StillInv(p: Params, store0: Store, s: State) {
    && (forall r :: 0 <= r < |s.procs| ==> ProcOk(p, s.procs[r]))
    && (forall key :: KeyOk(p, store0, s, key))
  }

  lemma ChargingTouchesOneKey(p: Params, q: Proc, status: Status, key: string)
    requires ProcOk(p, q) && q.status.Running?
    ensures var q' := Proc(q.buckets, q.charged + 1, status);
            var charged := q.buckets[q.charged].key;
            && (Touches(q', key) <==> Touches(q, key) || key == charged)
            && (key == charged ==> !Touches(q, key))
  {
    var q' := Proc(q.buckets, q.charged + 1, status);
    assert q'.buckets[q.charged].key == q.buckets[q.charged].key;
    if Touches(q', key) && key != q.buckets[q.charged].key {
      var j :| 0 <= j < q'.charged && j < |q'.buckets| && q'.buckets[j].key == key;
      assert q.buckets[j].key == key;
    }
    if Touches(q, key) {
      var j :| 0 <= j < q.charged && j < |q.buckets| && q.buckets[j].key == key;
      assert q'.buckets[j].key == key;
    }
  }

  lemma StepKeepsKeyOk(p: Params, store0: Store, s: State, r: nat, key: string)
    requires p.window > 0 && Positive(store0)
    requires Enabled(p, s, Step(r)) && ProcOk(p, s.procs[r])
    requires KeyOk(p, store0, s, key) && KeyOk(p, store0, s, s.procs[r].buckets[s.procs[r].charged].key)
    ensures KeyOk(p, store0, Next(p, s, Step(r)), key)
    ensures ProcOk(p, Next(p, s, Step(r)).procs[r])
  {
    hide Script, Touches, CountIf, Peek;
    var q := s.procs[r];
    var charged := q.buckets[q.charged].key;
    var q' := Next(p, s, Step(r)).procs[r];
    ScriptBumps(p, store0, s.store, s.now, charged, ChargeCount(s.procs, charged));
    ChargingTouchesOneKey(p, q, q'.status, key);
    CountAfterUpdate(s.procs, r, q', Toucher(key));
    CountAfterUpdate(s.procs, r, q', Loser(key));
    CountAfterUpdate(s.procs, r, q', Opener(key));
  }

  lemma ArriveKeepsStill(p: Params, store0: Store, s: State, buckets: seq<Bucket>)
    requires StillInv(p, store0, s) && WellFormed(p, buckets)
    ensures StillInv(p, store0, Next(p, s, Arrive(buckets)))
  {
    var s' := Next(p, s, Arrive(buckets));
    assert s'.procs[..|s.procs|] == s.procs;
    forall key ensures KeyOk(p, store0, s', key) {
      assert KeyOk(p, store0, s, key);
    }
  }

  predicate ClockStands(es: seq<Event>) {
    forall i :: 0 <= i < |es| ==> !es[i].Tick?
  }

  lemma {:induction false} RunKeepsStill(p: Params, store0: Store, s: State, es: seq<Event>)
    requires p.window > 0 && Positive(store0)
    requires Feasible(p, s, es) && ClockStands(es) && StillInv(p, store0, s)
    ensures StillInv(p, store0, Run(p, s, es)) && Run(p, s, es).now == s.now
    decreases |es|
  {
    if es != [] {
      var s' := Next(p, s, es[0]);
      match es[0] {
        case Arrive(buckets) => ArriveKeepsStill(p, store0, s, buckets);
        case Step(r) =>
          forall key ensures KeyOk(p, store0, s', key) && ProcOk(p, s'.procs[r]) {
            assert KeyOk(p, store0, s, key) && KeyOk(p, store0, s, s.procs[r].buckets[s.procs[r].charged].key);
            StepKeepsKeyOk(p, store0, s, r, key);
          }
          assert KeyOk(p, store0, s', "");
        case Reap(_) =>
          forall key ensures KeyOk(p, store0, s', key) {
            assert KeyOk(p, store0, s, key);
          }
      }
      RunKeepsStill(p, store0, s', es[1..]);
    }
  }

  // ----- One at a time ----------------------------------------------------------------------------------

  /** One request on its own while the clock stands. */
  function Alone(p: Params, store: Store, now: nat, buckets: seq<Bucket>): Walked {
    Walk(p, store, Still(now, |buckets|), buckets, 0)
  }

  /** The counters after the requests of `qs` have run one after another. */
  function SerialStore(p: Params, store: Store, now: nat, qs: seq<Proc>): Store {
    if qs == [] then store
    else Alone(p, SerialStore(p, store, now, qs[..|qs| - 1]), now, qs[|qs| - 1].buckets).store
  }

  /** Whatever passes a key comes before whatever is denied at it. */
  predicate PassersFirst(qs: seq<Proc>) {
    forall i, j, b :: 0 <= i < j < |qs| && 0 <= b < Passed(qs[j]) && b < |qs[j].buckets| ==>
      !DeniedAt(qs[i], qs[j].buckets[b].key)
  }

  /** Whatever opens a counter in vain comes before whatever else charges it. */
  predicate OpenersFirst(qs: seq<Proc>) {
    forall i, j, b :: 0 <= i < j < |qs| && 0 <= b < qs[i].charged && b < |qs[i].buckets| ==>
      !UnavailableAt(qs[j], qs[i].buckets[b].key)
  }

  predicate InTurn(qs: seq<Proc>) {
    PassersFirst(qs) && OpenersFirst(qs)
  }

  predicate Finished(p: Params, qs: seq<Proc>) {
    forall i :: 0 <= i < |qs| ==> ProcOk(p, qs[i]) && !qs[i].status.Running?
  }

  /** Finished requests, with counts as an interleaving leaves them. */
  ghost predicate Consistent(p: Params, store0: Store, now: nat, qs: seq<Proc>) {
    Finished(p, qs) && forall key :: AnswersAddUp(p, store0, now, qs, key)
  }

  /** On one key `store` shows `n` charges more than `store0`. */
  predicate ShowsKey(p: Params, store0: Store, store: Store, now: nat, key: string, n: nat) {
    Peek(store, now, key) == Bump(p, Peek(store0, now, key), now, n)
  }

  ghost predicate ShowsCharges(p: Params, store0: Store, store: Store, now: nat, qs: seq<Proc>) {
    forall key :: ShowsKey(p, store0, store, now, key, ChargeCount(qs, key))
  }

  lemma TouchingHasOneOutcome(p: Params, q: Proc, key: string)
    requires ProcOk(p, q)
    ensures Touches(q, key) <==> PassesKey(q, key) || DeniedAt(q, key) || UnavailableAt(q, key)
    ensures PassesKey(q, key) ==> !DeniedAt(q, key) && !UnavailableAt(q, key)
  {
    if LastCharged(q, key) {
      assert q.buckets[q.charged - 1].key == key;
    }
    if Touches(q, key) && !DeniedAt(q, key) && !UnavailableAt(q, key) {
      var j :| 0 <= j < q.charged && j < |q.buckets| && q.buckets[j].key == key;
      assert j < Passed(q);
    }
    if PassesKey(q, key) {
      var j :| 0 <= j < Passed(q) && j < |q.buckets| && q.buckets[j].key == key;
    }
  }

  /** Who is denied at a key, or opens it in vain, has charged it. */
  lemma ChargesCoverOutcomes(p: Params, qs: seq<Proc>, key: string)
    requires Finished(p, qs)
    ensures DenyCount(qs, key) <= ChargeCount(qs, key) && OpenCount(qs, key) <= ChargeCount(qs, key)
  {
    forall i | 0 <= i < |qs| ensures DeniedAt(qs[i], key) || UnavailableAt(qs[i], key) ==> Touches(qs[i], key) {
      TouchingHasOneOutcome(p, qs[i], key);
    }
    CountCompare(qs, Loser(key), Toucher(key));
    CountCompare(qs, Opener(key), Toucher(key));
  }

  /** Charges, denials and openings of a key: those before the i-th request, its own, those after. */
  lemma SplitCounts(p: Params, qs: seq<Proc>, i: nat, key: string)
    requires Finished(p, qs) && i < |qs|
    ensures ChargeCount(qs, key)
            == ChargeCount(qs[..i], key) + (if Touches(qs[i], key) then 1 else 0) + ChargeCount(qs[i + 1..], key)
    ensures DenyCount(qs, key)
            == DenyCount(qs[..i], key) + (if DeniedAt(qs[i], key) then 1 else 0) + DenyCount(qs[i + 1..], key)
    ensures OpenCount(qs, key)
            == OpenCount(qs[..i], key) + (if UnavailableAt(qs[i], key) then 1 else 0) + OpenCount(qs[i + 1..], key)
    ensures DenyCount(qs[..i], key) <= ChargeCount(qs[..i], key)
    ensures OpenCount(qs[..i], key) <= ChargeCount(qs[..i], key)
    ensures DenyCount(qs[i + 1..], key) <= ChargeCount(qs[i + 1..], key)
  {
    hide CountIf, Touches, DeniedAt, UnavailableAt;
    SplitAt(qs, i, Toucher(key));
    SplitAt(qs, i, Loser(key));
    SplitAt(qs, i, Opener(key));
    ChargesCoverOutcomes(p, qs[..i], key);
    ChargesCoverOutcomes(p, qs[i + 1..], key);
  }

  /** Once a key has been charged, nothing later opens it. */
  lemma NoneOpensLater(qs: seq<Proc>, i: nat, key: string)
    requires OpenersFirst(qs) && i < |qs| && Touches(qs[i], key)
    ensures OpenCount(qs[i + 1..], key) == 0
  {
    var later := qs[i + 1..];
    var b :| 0 <= b < qs[i].charged && b < |qs[i].buckets| && qs[i].buckets[b].key == key;
    forall j | 0 <= j < |later| ensures !UnavailableAt(later[j], key) {
      assert later[j] == qs[i + 1 + j];
    }
    CountCompare(later, Opener(key), Opener(key));
  }

  /** When the i-th request's turn comes, a bucket it passed still has room. */
  lemma PasserInTurn(p: Params, store0: Store, now: nat, qs: seq<Proc>, i: nat, b: nat)
    requires Consistent(p, store0, now, qs) && InTurn(qs)
    requires i < |qs| && b < Passed(qs[i])
    ensures var key := qs[i].buckets[b].key;
            var answer := Answer(p, store0, now, key, ChargeCount(qs[..i], key));
            answer.Ok? && answer.value <= p.limitOf(key)
  {
    var key := qs[i].buckets[b].key;
    assert PassesKey(qs[i], key);
    TouchingHasOneOutcome(p, qs[i], key);
    SplitCounts(p, qs, i, key);
    NoneOpensLater(qs, i, key);
    CountCompare(qs[..i], Loser(key), Loser(key));
    assert AnswersAddUp(p, store0, now, qs, key);
  }

  /** The bucket it was denied at has none left. */
  lemma DeniedInTurn(p: Params, store0: Store, now: nat, qs: seq<Proc>, i: nat, key: string)
    requires Consistent(p, store0, now, qs) && InTurn(qs)
    requires i < |qs| && DeniedAt(qs[i], key)
    ensures var answer := Answer(p, store0, now, key, ChargeCount(qs[..i], key));
            answer.Ok? && answer.value > p.limitOf(key)
  {
    TouchingHasOneOutcome(p, qs[i], key);
    SplitCounts(p, qs, i, key);
    NoneOpensLater(qs, i, key);
    AllDeniedLater(p, qs, i, key);
    assert AnswersAddUp(p, store0, now, qs, key);
  }

  lemma AllDeniedLater(p: Params, qs: seq<Proc>, i: nat, key: string)
    requires Finished(p, qs) && InTurn(qs) && i < |qs| && DeniedAt(qs[i], key)
    ensures ChargeCount(qs[i + 1..], key) <= DenyCount(qs[i + 1..], key)
  {
    var later := qs[i + 1..];
    assert qs[i].buckets[qs[i].charged - 1].key == key;
    forall j | 0 <= j < |later| && Touches(later[j], key) ensures DeniedAt(later[j], key) {
      assert later[j] == qs[i + 1 + j];
      TouchingHasOneOutcome(p, later[j], key);
    }
    CountCompare(later, Toucher(key), Loser(key));
  }

  /** And a counter it opened in vain is not there yet. */
  lemma OpenerInTurn(p: Params, store0: Store, now: nat, qs: seq<Proc>, i: nat, key: string)
    requires Consistent(p, store0, now, qs) && InTurn(qs)
    requires i < |qs| && UnavailableAt(qs[i], key)
    ensures Answer(p, store0, now, key, ChargeCount(qs[..i], key)).Err?
  {
    SplitCounts(p, qs, i, key);
    CountCompare(qs[..i], Toucher(key), Toucher(key));
    assert AnswersAddUp(p, store0, now, qs, key);
  }

  /** A request that has charged its first `b` buckets. */
  function Partway(q: Proc, b: nat): Proc {
    Proc(q.buckets, b, Running)
  }

  lemma PartwayCharges(p: Params, qs: seq<Proc>, q: Proc, b: nat, key: string)
    requires WellFormed(p, q.buckets) && b < |q.buckets|
    ensures key == q.buckets[b].key ==> ChargeCount(qs + [Partway(q, b)], key) == ChargeCount(qs, key)
    ensures ChargeCount(qs + [Partway(q, b + 1)], key)
            == ChargeCount(qs + [Partway(q, b)], key) + if key == q.buckets[b].key then 1 else 0
  {
    ChargingTouchesOneKey(p, Partway(q, b), Running, key);
    CountAppend(qs, Partway(q, b), Toucher(key));
    CountAppend(qs, Partway(q, b + 1), Toucher(key));
  }

  lemma ScriptShows(p: Params, store0: Store, store: Store, now: nat, charged: string, n: nat, key: string, m: nat)
    requires p.window > 0 && Positive(store0)
    requires ShowsKey(p, store0, store, now, charged, n) && ShowsKey(p, store0, store, now, key, m)
    requires key == charged ==> m == n
    ensures var (store', reply) := Script(p, store, now, charged);
            && reply == Answer(p, store0, now, charged, n)
            && ShowsKey(p, store0, store', now, key, if key == charged then m + 1 else m)
  {
    hide Script, Answer;
    ScriptBumps(p, store0, store, now, charged, n);
  }

  lemma ScriptAdvances(p: Params, store0: Store, store: Store, now: nat, qs: seq<Proc>, q: Proc, b: nat)
    requires p.window > 0 && Positive(store0)
    requires WellFormed(p, q.buckets) && b < |q.buckets|
    requires ShowsCharges(p, store0, store, now, qs + [Partway(q, b)])
    ensures var (store', reply) := Script(p, store, now, q.buckets[b].key);
            && reply == Answer(p, store0, now, q.buckets[b].key, ChargeCount(qs, q.buckets[b].key))
            && ShowsCharges(p, store0, store', now, qs + [Partway(q, b + 1)])
  {
    hide Script, Answer, ShowsKey, ChargeCount;
    var charged := q.buckets[b].key;
    var (store', reply) := Script(p, store, now, charged);
    var n := ChargeCount(qs + [Partway(q, b)], charged);
    assert ShowsKey(p, store0, store, now, charged, n);
    PartwayCharges(p, qs, q, b, charged);
    ScriptShows(p, store0, store, now, charged, n, charged, n);
    var next := qs + [Partway(q, b + 1)];
    forall key ensures ShowsKey(p, store0, store', now, key, ChargeCount(next, key)) {
      var m := ChargeCount(qs + [Partway(q, b)], key);
      assert ShowsKey(p, store0, store, now, key, m);
      PartwayCharges(p, qs, q, b, key);
      ScriptShows(p, store0, store, now, charged, n, key, m);
    }
  }

  /** The i-th request, run alone after those before it, gets the answer it got. */
  lemma {:induction false} WalkAlone(p: Params, store0: Store, store: Store, now: nat, qs: seq<Proc>, i: nat, b: nat)
    requires p.window > 0 && Positive(store0)
    requires Consistent(p, store0, now, qs) && InTurn(qs) && i < |qs| && b <= Passed(qs[i])
    requires ShowsCharges(p, store0, store, now, qs[..i] + [Partway(qs[i], b)])
    ensures var w := Walk(p, store, Still(now, |qs[i].buckets|), qs[i].buckets, b);
            && w.charged == qs[i].charged
            && w.status == qs[i].status
            && ShowsCharges(p, store0, w.store, now, qs[..i] + [Partway(qs[i], qs[i].charged)])
    decreases |qs[i].buckets| - b
  {
    hide Script, Answer, ShowsCharges, InTurn, AnswersAddUp, ChargeCount;
    var q := qs[i];
    if b < |q.buckets| {
      var key := q.buckets[b].key;
      var (store', reply) := Script(p, store, now, key);
      ScriptAdvances(p, store0, store, now, qs[..i], q, b);
      if b < Passed(q) {
        PasserInTurn(p, store0, now, qs, i, b);
        WalkAlone(p, store0, store', now, qs, i, b + 1);
      } else if q.status.Denied? {
        DeniedInTurn(p, store0, now, qs, i, key);
      } else {
        OpenerInTurn(p, store0, now, qs, i, key);
      }
    }
  }

  lemma SameCharges(qs: seq<Proc>, q: Proc, key: string)
    ensures ChargeCount(qs + [q], key) == ChargeCount(qs + [Partway(q, q.charged)], key)
    ensures ChargeCount(qs, key) == ChargeCount(qs + [Partway(q, 0)], key)
  {
    var r := Partway(q, q.charged);
    CountAppend(qs, q, Toucher(key));
    CountAppend(qs, r, Toucher(key));
    CountAppend(qs, Partway(q, 0), Toucher(key));
    if Touches(q, key) {
      var j :| 0 <= j < q.charged && j < |q.buckets| && q.buckets[j].key == key;
      assert r.buckets[j].key == key;
    }
    if Touches(r, key) {
      var j :| 0 <= j < r.charged && j < |r.buckets| && r.buckets[j].key == key;
      assert q.buckets[j].key == key;
    }
  }

  /** The i-th request run alone after the first i. */
  function AloneAt(p: Params, store0: Store, now: nat, qs: seq<Proc>, i: nat): Walked
    requires i < |qs|
  {
    Alone(p, SerialStore(p, store0, now, qs[..i]), now, qs[i].buckets)
  }

  lemma StartShows(p: Params, store0: Store, store: Store, now: nat, qs: seq<Proc>, i: nat)
    requires i < |qs| && ShowsCharges(p, store0, store, now, qs[..i])
    ensures ShowsCharges(p, store0, store, now, qs[..i] + [Partway(qs[i], 0)])
  {
    forall key ensures ShowsKey(p, store0, store, now, key, ChargeCount(qs[..i] + [Partway(qs[i], 0)], key)) {
      SameCharges(qs[..i], qs[i], key);
      assert ShowsKey(p, store0, store, now, key, ChargeCount(qs[..i], key));
    }
  }

  lemma MoveOn(p: Params, store0: Store, store: Store, now: nat, qs: seq<Proc>, i: nat)
    requires i < |qs| && ShowsCharges(p, store0, store, now, qs[..i] + [Partway(qs[i], qs[i].charged)])
    ensures ShowsCharges(p, store0, store, now, qs[..i + 1])
  {
    var done := qs[..i + 1];
    assert done == qs[..i] + [qs[i]];
    forall key ensures ShowsKey(p, store0, store, now, key, ChargeCount(done, key)) {
      SameCharges(qs[..i], qs[i], key);
      assert ShowsKey(p, store0, store, now, key, ChargeCount(qs[..i] + [Partway(qs[i], qs[i].charged)], key));
    }
  }

  lemma NothingRan(p: Params, store0: Store, now: nat)
    ensures ShowsCharges(p, store0, SerialStore(p, store0, now, []), now, [])
  {
    assert forall key :: ShowsKey(p, store0, store0, now, key, 0);
  }

  lemma {:induction false} SerialShows(p: Params, store0: Store, now: nat, qs: seq<Proc>, n: nat)
    requires p.window > 0 && Positive(store0)
    requires Consistent(p, store0, now, qs) && InTurn(qs) && n <= |qs|
    ensures ShowsCharges(p, store0, SerialStore(p, store0, now, qs[..n]), now, qs[..n])
  {
    hide ShowsCharges, Consistent, InTurn, Alone, ChargeCount;
    if n > 0 {
      SerialShows(p, store0, now, qs, n - 1);
      AloneGetsItsAnswer(p, store0, now, qs, n - 1);
      assert qs[..n][..n - 1] == qs[..n - 1];
      MoveOn(p, store0, AloneAt(p, store0, now, qs, n - 1).store, now, qs, n - 1);
    } else {
      NothingRan(p, store0, now);
      assert qs[..0] == [];
    }
  }

  lemma AloneGetsItsAnswer(p: Params, store0: Store, now: nat, qs: seq<Proc>, i: nat)
    requires p.window > 0 && Positive(store0)
    requires Consistent(p, store0, now, qs) && InTurn(qs) && i < |qs|
    requires ShowsCharges(p, store0, SerialStore(p, store0, now, qs[..i]), now, qs[..i])
    ensures var w := AloneAt(p, store0, now, qs, i);
            && w.charged == qs[i].charged
            && w.status == qs[i].status
            && ShowsCharges(p, store0, w.store, now, qs[..i] + [Partway(qs[i], qs[i].charged)])
  {
    var store := SerialStore(p, store0, now, qs[..i]);
    StartShows(p, store0, store, now, qs, i);
    WalkAlone(p, store0, store, now, qs, i, 0);
  }

  /** Run one at a time in this order, every request gets the answer it has, and charges as many
      buckets as it has. */
  predicate GivesAnswers(p: Params, store0: Store, now: nat, qs: seq<Proc>) {
    forall i :: 0 <= i < |qs| ==>
      && AloneAt(p, store0, now, qs, i).status == qs[i].status
      && AloneAt(p, store0, now, qs, i).charged == qs[i].charged
  }

  lemma InTurnIsSerial(p: Params, store0: Store, now: nat, qs: seq<Proc>)
    requires p.window > 0 && Positive(store0)
    requires Consistent(p, store0, now, qs) && InTurn(qs)
    ensures GivesAnswers(p, store0, now, qs)
    ensures ShowsCharges(p, store0, SerialStore(p, store0, now, qs), now, qs)
  {
    forall i | 0 <= i < |qs|
      ensures AloneAt(p, store0, now, qs, i).status == qs[i].status
              && AloneAt(p, store0, now, qs, i).charged == qs[i].charged
    {
      SerialShows(p, store0, now, qs, i);
      AloneGetsItsAnswer(p, store0, now, qs, i);
    }
    SerialShows(p, store0, now, qs, |qs|);
    assert qs[..|qs|] == qs;
  }

  // ----- And no other order does --------------------------------------------------------------------------

  /** What `q` has been told from bucket `b` on are the answers to a request that runs after `qs`. */
  predicate ToldAfter(p: Params, store0: Store, now: nat, qs: seq<Proc>, q: Proc, b: nat) {
    && (forall j :: b <= j < Passed(q) && j < |q.buckets| ==>
          Count(store0, now, q.buckets[j].key) + ChargeCount(qs, q.buckets[j].key) + 1 <= q.buckets[j].limit)
    && (q.status.Denied? && b < q.charged <= |q.buckets| ==>
          var last := q.buckets[q.charged - 1];
          Count(store0, now, last.key) + ChargeCount(qs, last.key) + 1 > last.limit)
    && (q.status.Unavailable? && b < q.charged <= |q.buckets| ==>
          ChargeCount(qs, q.buckets[q.charged - 1].key) == 0)
  }

  /** What a request that runs alone after `qs` is told, and what it charges. */
  lemma {:induction false} WalkCharges(p: Params, store0: Store, store: Store, now: nat, qs: seq<Proc>, q: Proc, b: nat)
    requires p.window > 0 && Positive(store0)
    requires WellFormed(p, q.buckets) && b <= |q.buckets|
    requires ShowsCharges(p, store0, store, now, qs + [Partway(q, b)])
    ensures var w := Walk(p, store, Still(now, |q.buckets|), q.buckets, b);
            && b <= w.charged <= |q.buckets|
            && (w.status.Denied? || w.status.Unavailable? ==> b < w.charged)
            && ShowsCharges(p, store0, w.store, now, qs + [Partway(q, w.charged)])
            && ToldAfter(p, store0, now, qs, Proc(q.buckets, w.charged, w.status), b)
    decreases |q.buckets| - b
  {
    hide Script, ChargeCount, Count, ShowsCharges;
    if b < |q.buckets| {
      var (store', reply) := Script(p, store, now, q.buckets[b].key);
      ScriptAdvances(p, store0, store, now, qs, q, b);
      if reply.Ok? && reply.value <= q.buckets[b].limit {
        WalkCharges(p, store0, store', now, qs, q, b + 1);
      }
    }
  }

  lemma {:induction false} SerialCharges(p: Params, store0: Store, now: nat, qs: seq<Proc>, n: nat)
    requires p.window > 0 && Positive(store0)
    requires Finished(p, qs) && GivesAnswers(p, store0, now, qs) && n <= |qs|
    ensures ShowsCharges(p, store0, SerialStore(p, store0, now, qs[..n]), now, qs[..n])
  {
    hide ShowsCharges, ToldAfter, Alone, ChargeCount;
    if n > 0 {
      SerialCharges(p, store0, now, qs, n - 1);
      assert qs[..n][..n - 1] == qs[..n - 1];
      ChargesAlone(p, store0, now, qs, n - 1);
      MoveOn(p, store0, AloneAt(p, store0, now, qs, n - 1).store, now, qs, n - 1);
    } else {
      NothingRan(p, store0, now);
      assert qs[..0] == [];
    }
  }

  lemma ChargesAlone(p: Params, store0: Store, now: nat, qs: seq<Proc>, i: nat)
    requires p.window > 0 && Positive(store0)
    requires i < |qs| && ProcOk(p, qs[i])
    requires ShowsCharges(p, store0, SerialStore(p, store0, now, qs[..i]), now, qs[..i])
    ensures var w := AloneAt(p, store0, now, qs, i);
            && ShowsCharges(p, store0, w.store, now, qs[..i] + [Partway(qs[i], w.charged)])
            && ToldAfter(p, store0, now, qs[..i], Proc(qs[i].buckets, w.charged, w.status), 0)
  {
    hide ShowsCharges, ToldAfter;
    var store := SerialStore(p, store0, now, qs[..i]);
    StartShows(p, store0, store, now, qs, i);
    WalkCharges(p, store0, store, now, qs[..i], qs[i], 0);
  }

  lemma AnswersToldInOrder(p: Params, store0: Store, now: nat, qs: seq<Proc>, i: nat)
    requires p.window > 0 && Positive(store0)
    requires Finished(p, qs) && GivesAnswers(p, store0, now, qs) && i < |qs|
    ensures ToldAfter(p, store0, now, qs[..i], qs[i], 0)
  {
    hide ShowsCharges, ToldAfter, Alone, SerialStore;
    SerialCharges(p, store0, now, qs, i);
    ChargesAlone(p, store0, now, qs, i);
    assert qs[i] == Proc(qs[i].buckets, AloneAt(p, store0, now, qs, i).charged, AloneAt(p, store0, now, qs, i).status);
  }

  lemma CountGrows(qs: seq<Proc>, i: nat, j: nat, f: Proc -> bool)
    requires i <= j <= |qs|
    ensures CountIf(qs[..i], f) <= CountIf(qs[..j], f)
  {
    assert qs[..j] == qs[..i] + qs[i..j];
    CountConcat(qs[..i], qs[i..j], f);
  }

  lemma ToldInTurn(p: Params, store0: Store, now: nat, qs: seq<Proc>, i: nat, j: nat, key: string)
    requires p.window > 0 && Positive(store0)
    requires Finished(p, qs) && GivesAnswers(p, store0, now, qs) && i < j < |qs|
    ensures PassesKey(qs[j], key) ==> !DeniedAt(qs[i], key)
    ensures Touches(qs[i], key) ==> !UnavailableAt(qs[j], key)
  {
    hide GivesAnswers, CountIf, Touches, Count;
    AnswersToldInOrder(p, store0, now, qs, i);
    AnswersToldInOrder(p, store0, now, qs, j);
    CountGrows(qs, i, j, Toucher(key));
    CountGrows(qs, i + 1, j, Toucher(key));
    assert qs[..i + 1] == qs[..i] + [qs[i]];
    CountAppend(qs[..i], qs[i], Toucher(key));
  }

  /** A serial order of finished requests is in turn: counters only grow, so once a request has been
      denied at a bucket none passes it later, and none opens a counter that is there. */
  lemma SerialIsInTurn(p: Params, store0: Store, now: nat, qs: seq<Proc>)
    requires p.window > 0 && Positive(store0)
    requires Finished(p, qs) && GivesAnswers(p, store0, now, qs)
    ensures InTurn(qs)
  {
    forall i, j, b | 0 <= i < j < |qs| && 0 <= b < Passed(qs[j]) && b < |qs[j].buckets|
      ensures !DeniedAt(qs[i], qs[j].buckets[b].key)
    {
      assert PassesKey(qs[j], qs[j].buckets[b].key);
      ToldInTurn(p, store0, now, qs, i, j, qs[j].buckets[b].key);
    }
    forall i, j, b | 0 <= i < j < |qs| && 0 <= b < qs[i].charged && b < |qs[i].buckets|
      ensures !UnavailableAt(qs[j], qs[i].buckets[b].key)
    {
      assert Touches(qs[i], qs[i].buckets[b].key);
      ToldInTurn(p, store0, now, qs, i, j, qs[i].buckets[b].key);
    }
  }

  // ----- The witness order ------------------------------------------------------------------------------

  /** Openers in vain by rank, then admitted requests, then denied ones by falling rank. */
  function Class(p: Params, q: Proc): nat {
    if 0 < q.charged <= |q.buckets| && p.rank(q.buckets[q.charged - 1].key) < p.ranks then
      var rank := p.rank(q.buckets[q.charged - 1].key);
      if q.status.Unavailable? then rank
      else if q.status.Denied? then 2 * p.ranks - rank
      else p.ranks
    else p.ranks
  }

  /** The requests of one class among the first `m`, in order of arrival. */
  function Group(p: Params, qs: seq<Proc>, m: nat, c: nat): (ids: seq<nat>)
    requires m <= |qs|
    ensures forall i :: 0 <= i < |ids| ==> ids[i] < m
  {
    if m == 0 then []
    else Group(p, qs, m - 1, c) + if Class(p, qs[m - 1]) == c then [m - 1] else []
  }

  /** The first `n` classes among the first `m` requests. */
  function Classes(p: Params, qs: seq<Proc>, m: nat, n: nat): (ids: seq<nat>)
    requires m <= |qs|
    ensures forall i :: 0 <= i < |ids| ==> ids[i] < m
  {
    if n == 0 then [] else Classes(p, qs, m, n - 1) + Group(p, qs, m, n - 1)
  }

  lemma {:induction false} GroupHolds(p: Params, qs: seq<Proc>, m: nat, c: nat, i: nat)
    requires m <= |qs| && i < |Group(p, qs, m, c)|
    ensures Class(p, qs[Group(p, qs, m, c)[i]]) == c
  {
    hide Class;
    if i < |Group(p, qs, m - 1, c)| {
      GroupHolds(p, qs, m - 1, c, i);
    }
  }

  lemma {:induction false} GroupAscends(p: Params, qs: seq<Proc>, m: nat, c: nat, i: nat, j: nat)
    requires m <= |qs| && i < j < |Group(p, qs, m, c)|
    ensures Group(p, qs, m, c)[i] < Group(p, qs, m, c)[j]
  {
    hide Class;
    if j < |Group(p, qs, m - 1, c)| {
      GroupAscends(p, qs, m - 1, c, i, j);
    }
  }

  lemma {:induction false} GroupLists(p: Params, qs: seq<Proc>, m: nat, c: nat, r: nat)
    requires r < m <= |qs| && Class(p, qs[r]) == c
    ensures r in Group(p, qs, m, c)
  {
    hide Class;
    if r < m - 1 {
      GroupLists(p, qs, m - 1, c, r);
    }
  }

  lemma {:induction false} ClassesHold(p: Params, qs: seq<Proc>, m: nat, n: nat, i: nat)
    requires m <= |qs| && i < |Classes(p, qs, m, n)|
    ensures Class(p, qs[Classes(p, qs, m, n)[i]]) < n
  {
    hide Class, Group;
    var lower := |Classes(p, qs, m, n - 1)|;
    if i < lower {
      ClassesHold(p, qs, m, n - 1, i);
    } else {
      GroupHolds(p, qs, m, n - 1, i - lower);
    }
  }

  lemma {:induction false} ClassesList(p: Params, qs: seq<Proc>, m: nat, n: nat, r: nat)
    requires r < m <= |qs| && Class(p, qs[r]) < n
    ensures r in Classes(p, qs, m, n)
  {
    hide Class, Group;
    if Class(p, qs[r]) < n - 1 {
      ClassesList(p, qs, m, n - 1, r);
    } else {
      GroupLists(p, qs, m, n - 1, r);
    }
  }

  /** Earlier in the order: of a lower class, or of the same class and arrived before. */
  predicate Before(p: Params, qs: seq<Proc>, a: nat, b: nat)
    requires a < |qs| && b < |qs|
  {
    Class(p, qs[a]) < Class(p, qs[b]) || (Class(p, qs[a]) == Class(p, qs[b]) && a < b)
  }

  lemma {:induction false} ClassesAreOrdered(p: Params, qs: seq<Proc>, m: nat, n: nat, i: nat, j: nat)
    requires m <= |qs| && i < j < |Classes(p, qs, m, n)|
    ensures Before(p, qs, Classes(p, qs, m, n)[i], Classes(p, qs, m, n)[j])
  {
    hide Class, Group;
    var lower := |Classes(p, qs, m, n - 1)|;
    if j < lower {
      ClassesAreOrdered(p, qs, m, n - 1, i, j);
    } else {
      GroupHolds(p, qs, m, n - 1, j - lower);
      if i < lower {
        ClassesHold(p, qs, m, n - 1, i);
      } else {
        GroupHolds(p, qs, m, n - 1, i - lower);
        GroupAscends(p, qs, m, n - 1, i - lower, j - lower);
      }
    }
  }

  /** The order: openers from the lowest rank up, admitted requests, denied ones from the highest
      rank down. */
  function Witness(p: Params, qs: seq<Proc>): seq<nat> {
    Classes(p, qs, |qs|, 2 * p.ranks + 1)
  }

  function Pick(qs: seq<Proc>, ids: seq<nat>): seq<Proc>
    requires forall i :: 0 <= i < |ids| ==> ids[i] < |qs|
  {
    seq(|ids|, i requires 0 <= i < |ids| => qs[ids[i]])
  }

  /** `ids` lists 0, ..., n - 1 in some order, each once. */
  predicate IsOrder(ids: seq<nat>, n: nat) {
    && (forall i :: 0 <= i < |ids| ==> ids[i] < n)
    && (forall i, j :: 0 <= i < j < |ids| ==> ids[i] != ids[j])
    && (forall r :: 0 <= r < n ==> r in ids)
  }

  lemma PickAround(qs: seq<Proc>, a: seq<nat>, b: seq<nat>, f: Proc -> bool)
    requires qs != []
    requires forall i :: 0 <= i < |a| ==> a[i] < |qs| - 1
    requires forall i :: 0 <= i < |b| ==> b[i] < |qs| - 1
    ensures var n := |qs| - 1;
            CountIf(Pick(qs, a + [n] + b), f) == CountIf(Pick(qs[..n], a + b), f) + if f(qs[n]) then 1 else 0
  {
    var n := |qs| - 1;
    var x, y := Pick(qs[..n], a), Pick(qs[..n], b);
    assert Pick(qs, a + [n] + b) == x + [qs[n]] + y;
    assert Pick(qs[..n], a + b) == x + y;
    CountConcat(x, y, f);
    CountAppend(x, qs[n], f);
    CountConcat(x + [qs[n]], y, f);
  }

  lemma OrderOfSome(ids: seq<nat>, n: nat)
    requires IsOrder(ids, n)
    ensures ids == [] || n > 0
  {
    assert |ids| > 0 ==> ids[0] < n;
  }

  /** Reordering changes no count. */
  lemma {:induction false} OrderCounts(qs: seq<Proc>, ids: seq<nat>, f: Proc -> bool)
    requires IsOrder(ids, |qs|)
    ensures CountIf(Pick(qs, ids), f) == CountIf(qs, f)
  {
    if qs == [] {
      OrderOfSome(ids, |qs|);
    } else {
      var n := |qs| - 1;
      assert n in ids;
      var j :| 0 <= j < |ids| && ids[j] == n;
      var a, b := ids[..j], ids[j + 1..];
      assert ids == a + [n] + b;
      WithoutLast(ids, n, j);
      PickAround(qs, a, b, f);
      OrderCounts(qs[..n], a + b, f);
    }
  }

  lemma WithoutLast(ids: seq<nat>, n: nat, j: nat)
    requires IsOrder(ids, n + 1) && j < |ids| && ids[j] == n
    ensures IsOrder(ids[..j] + ids[j + 1..], n)
  {
    var rest := ids[..j] + ids[j + 1..];
    forall i | 0 <= i < |rest| ensures rest[i] < n {
      assert rest[i] == if i < j then ids[i] else ids[i + 1];
    }
    forall r | 0 <= r < n ensures r in rest {
      assert r in ids;
      var i :| 0 <= i < |ids| && ids[i] == r;
      assert rest[if i < j then i else i - 1] == r;
    }
  }

  lemma WitnessIsOrder(p: Params, qs: seq<Proc>)
    ensures IsOrder(Witness(p, qs), |qs|)
  {
    var ids := Witness(p, qs);
    forall i, j | 0 <= i < j < |ids| ensures ids[i] != ids[j] {
      ClassesAreOrdered(p, qs, |qs|, 2 * p.ranks + 1, i, j);
    }
    forall r | 0 <= r < |qs| ensures r in ids {
      ClassesList(p, qs, |qs|, 2 * p.ranks + 1, r);
    }
  }

  lemma PasserHasLowerClass(p: Params, q: Proc, d: Proc, b: nat)
    requires ProcOk(p, q) && ProcOk(p, d)
    requires b < Passed(q) && DeniedAt(d, q.buckets[b].key)
    ensures Class(p, q) < Class(p, d)
  {
    if q.status.Denied? {
      assert p.rank(q.buckets[b].key) < p.rank(q.buckets[q.charged - 1].key);
    }
  }

  lemma OpenerHasLowerClass(p: Params, u: Proc, q: Proc, b: nat)
    requires ProcOk(p, u) && ProcOk(p, q)
    requires b < q.charged && UnavailableAt(u, q.buckets[b].key) && !UnavailableAt(q, q.buckets[b].key)
    ensures Class(p, u) < Class(p, q)
  {
    if q.status.Unavailable? {
      assert b < q.charged - 1;
      assert p.rank(q.buckets[b].key) < p.rank(q.buckets[q.charged - 1].key);
    }
  }

  /** A key is opened at most once. */
  lemma OnlyOneOpens(p: Params, store0: Store, now: nat, qs: seq<Proc>, i: nat, j: nat, key: string)
    requires Consistent(p, store0, now, qs) && i < j < |qs|
    ensures !(UnavailableAt(qs[i], key) && UnavailableAt(qs[j], key))
  {
    assert AnswersAddUp(p, store0, now, qs, key);
    if UnavailableAt(qs[i], key) && UnavailableAt(qs[j], key) {
      TwoAreCounted(qs, i, j, Opener(key));
    }
  }

  lemma WitnessIsInTurn(p: Params, store0: Store, now: nat, qs: seq<Proc>)
    requires Consistent(p, store0, now, Pick(qs, Witness(p, qs)))
    ensures InTurn(Pick(qs, Witness(p, qs)))
  {
    hide Class, Classes, AnswersAddUp;
    var ids := Witness(p, qs);
    var ps := Pick(qs, ids);
    forall i, j, b | 0 <= i < j < |ps| && 0 <= b < Passed(ps[j]) && b < |ps[j].buckets|
      ensures !DeniedAt(ps[i], ps[j].buckets[b].key)
    {
      ClassesAreOrdered(p, qs, |qs|, 2 * p.ranks + 1, i, j);
      if DeniedAt(ps[i], ps[j].buckets[b].key) {
        PasserHasLowerClass(p, ps[j], ps[i], b);
      }
    }
    forall i, j, b | 0 <= i < j < |ps| && 0 <= b < ps[i].charged && b < |ps[i].buckets|
      ensures !UnavailableAt(ps[j], ps[i].buckets[b].key)
    {
      ClassesAreOrdered(p, qs, |qs|, 2 * p.ranks + 1, i, j);
      if UnavailableAt(ps[j], ps[i].buckets[b].key) {
        OnlyOneOpens(p, store0, now, ps, i, j, ps[i].buckets[b].key);
        OpenerHasLowerClass(p, ps[j], ps[i], b);
      }
    }
  }

  // ----- The theorem ------------------------------------------------------------------------------------

  /** All requests have their answer. */
  predicate Complete(s: State) {
    forall r :: 0 <= r < |s.procs| ==> !s.procs[r].status.Running?
  }

  /** Any order of the finished requests of a state is consistent with its counts. */
  lemma OrdersAreConsistent(p: Params, store0: Store, s: State, order: seq<nat>)
    requires StillInv(p, store0, s) && Complete(s) && IsOrder(order, |s.procs|)
    ensures Consistent(p, store0, s.now, Pick(s.procs, order))
    ensures ShowsCharges(p, store0, s.store, s.now, Pick(s.procs, order))
  {
    var serial := Pick(s.procs, order);
    forall key
      ensures AnswersAddUp(p, store0, s.now, serial, key)
      ensures ShowsKey(p, store0, s.store, s.now, key, ChargeCount(serial, key))
    {
      OrderCounts(s.procs, order, Toucher(key));
      OrderCounts(s.procs, order, Loser(key));
      OrderCounts(s.procs, order, Opener(key));
      assert KeyOk(p, store0, s, key);
    }
  }

  /** The counters after running the requests one at a time are those of the state. */
  ghost predicate SameCounters(p: Params, store0: Store, s: State, qs: seq<Proc>) {
    forall key :: Peek(SerialStore(p, store0, s.now, qs), s.now, key) == Peek(s.store, s.now, key)
  }

  lemma SameChargesSameCounters(p: Params, store0: Store, s: State, qs: seq<Proc>)
    requires ShowsCharges(p, store0, s.store, s.now, qs)
    requires ShowsCharges(p, store0, SerialStore(p, store0, s.now, qs), s.now, qs)
    ensures SameCounters(p, store0, s, qs)
  {
    forall key ensures Peek(SerialStore(p, store0, s.now, qs), s.now, key) == Peek(s.store, s.now, key) {
      assert ShowsKey(p, store0, SerialStore(p, store0, s.now, qs), s.now, key, ChargeCount(qs, key));
      assert ShowsKey(p, store0, s.store, s.now, key, ChargeCount(qs, key));
    }
  }

  /** Where all requests of an interleaving while the clock stands have their answer. */
  ghost predicate Interleaved(p: Params, store0: Store, now: nat, es: seq<Event>, s: State) {
    && p.window > 0 && Positive(store0)
    && Feasible(p, State(store0, now, [], []), es)
    && ClockStands(es)
    && s == Run(p, State(store0, now, [], []), es)
    && Complete(s)
  }

  lemma InterleavedIsStill(p: Params, store0: Store, now: nat, es: seq<Event>, s: State)
    requires Interleaved(p, store0, now, es, s)
    ensures StillInv(p, store0, s) && s.now == now
  {
    assert StillInv(p, store0, State(store0, now, [], []));
    RunKeepsStill(p, store0, State(store0, now, [], []), es);
  }

  /**
   Serialisability: from any store, any complete interleaving of any number of requests while the
   clock stands gives every request the answer it gets when the requests run one at a time in the
   witness order, and leaves every counter as that order leaves it.
   */
  lemma InterleavingIsSerial(p: Params, store0: Store, now: nat, es: seq<Event>, s: State)
    requires Interleaved(p, store0, now, es, s)
    ensures var order := Witness(p, s.procs);
            && IsOrder(order, |s.procs|)
            && GivesAnswers(p, store0, now, Pick(s.procs, order))
            && SameCounters(p, store0, s, Pick(s.procs, order))
  {
    InterleavedIsStill(p, store0, now, es, s);
    var order := Witness(p, s.procs);
    WitnessIsOrder(p, s.procs);
    OrdersAreConsistent(p, store0, s, order);
    WitnessIsInTurn(p, store0, now, s.procs);
    InTurnIsSerial(p, store0, now, Pick(s.procs, order));
    SameChargesSameCounters(p, store0, s, Pick(s.procs, order));
  }

  /**
   Which orders are serial: running the requests one at a time in some order gives all of them
   their answers exactly when whatever passed a bucket comes before whatever was denied at it, and
   whatever opened a counter in vain before whatever else charged it; and every such order leaves
   the same counters.
   */
  lemma SerialOrdersAreThoseInTurn(p: Params, store0: Store, now: nat, es: seq<Event>, s: State, order: seq<nat>)
    requires Interleaved(p, store0, now, es, s) && IsOrder(order, |s.procs|)
    ensures var serial := Pick(s.procs, order);
            && (GivesAnswers(p, store0, now, serial) <==> PassersFirst(serial) && OpenersFirst(serial))
            && (GivesAnswers(p, store0, now, serial) ==> SameCounters(p, store0, s, serial))
  {
    hide GivesAnswers, PassersFirst, OpenersFirst;
    InterleavedIsStill(p, store0, now, es, s);
    OrdersAreConsistent(p, store0, s, order);
    var serial := Pick(s.procs, order);
    if InTurn(serial) {
      InTurnIsSerial(p, store0, now, serial);
      SameChargesSameCounters(p, store0, s, serial);
    }
    if GivesAnswers(p, store0, now, serial) {
      SerialIsInTurn(p, store0, now, serial);
    }
  }

  // ----- A serial order is itself a run -----------------------------------------------------------------

  function Steps(r: nat, n: nat): (es: seq<Event>)
    ensures |es| == n && forall i :: 0 <= i < n ==> es[i] == Step(r)
  {
    seq(n, _ => Step(r))
  }

  /** Stepping one request to its end is walking its buckets alone. */
  lemma {:induction false} StepsAreAWalk(p: Params, s: State, r: nat)
    requires Enabled(p, s, Step(r))
    ensures var q := s.procs[r];
            var w := Walk(p, s.store, Still(s.now, |q.buckets|), q.buckets, q.charged);
            && w.charged > q.charged
            && Feasible(p, s, Steps(r, w.charged - q.charged))
            && var s' := Run(p, s, Steps(r, w.charged - q.charged));
               && s'.store == w.store
               && s'.now == s.now
               && s'.procs == s.procs[r := Proc(q.buckets, w.charged, w.status)]
    decreases |s.procs[r].buckets| - s.procs[r].charged
  {
    hide Script;
    var q := s.procs[r];
    var w := Walk(p, s.store, Still(s.now, |q.buckets|), q.buckets, q.charged);
    var s' := Next(p, s, Step(r));
    if s'.procs[r].status.Running? {
      StepsAreAWalk(p, s', r);
      assert Steps(r, w.charged - q.charged)[1..] == Steps(r, w.charged - q.charged - 1);
    } else {
      assert w.charged == q.charged + 1 && w.store == s'.store && w.status == s'.procs[r].status by {
        if s'.procs[r].status.Admitted? {
          assert Walk(p, s'.store, Still(s.now, |q.buckets|), q.buckets, |q.buckets|).charged == |q.buckets|;
        }
      }
      assert Steps(r, 1)[1..] == [];
      assert Feasible(p, s', []);
    }
  }

  /** The events of the requests of `qs` run one after another. */
  function SerialEvents(p: Params, store: Store, now: nat, qs: seq<Proc>): (es: seq<Event>)
    ensures ClockStands(es)
  {
    if qs == [] then []
    else
      var n := |qs| - 1;
      var w := AloneAt(p, store, now, qs, n);
      SerialEvents(p, store, now, qs[..n]) + ([Arrive(qs[n].buckets)] + Steps(n, w.charged))
  }

  lemma ArriveAndStep(p: Params, s: State, buckets: seq<Bucket>)
    requires WellFormed(p, buckets)
    ensures var w := Alone(p, s.store, s.now, buckets);
            var es := [Arrive(buckets)] + Steps(|s.procs|, w.charged);
            && Feasible(p, s, es)
            && var s' := Run(p, s, es);
               && s'.store == w.store
               && s'.now == s.now
               && s'.procs == s.procs + [Proc(buckets, w.charged, w.status)]
  {
    var w := Alone(p, s.store, s.now, buckets);
    var r := |s.procs|;
    var s' := Next(p, s, Arrive(buckets));
    var es := [Arrive(buckets)] + Steps(r, w.charged);
    assert es[1..] == Steps(r, w.charged);
    if buckets == [] {
      assert Feasible(p, s', []);
    } else {
      StepsAreAWalk(p, s', r);
    }
  }

  /** `s` is the state in which the requests of `qs` have run one after another. */
  predicate RanSerially(p: Params, store0: Store, now: nat, qs: seq<Proc>, s: State) {
    && s.store == SerialStore(p, store0, now, qs)
    && s.now == now
    && |s.procs| == |qs|
    && forall i :: 0 <= i < |qs| ==>
         s.procs[i] == Proc(qs[i].buckets,
                            AloneAt(p, store0, now, qs, i).charged,
                            AloneAt(p, store0, now, qs, i).status)
  }

  lemma OneMoreSerially(p: Params, store0: Store, now: nat, qs: seq<Proc>, s: State, s': State)
    requires qs != [] && RanSerially(p, store0, now, qs[..|qs| - 1], s)
    requires s'.now == now
    requires var w := AloneAt(p, store0, now, qs, |qs| - 1);
             && s'.store == w.store
             && s'.procs == s.procs + [Proc(qs[|qs| - 1].buckets, w.charged, w.status)]
    ensures RanSerially(p, store0, now, qs, s')
  {
    hide Alone;
    var front := qs[..|qs| - 1];
    forall i | 0 <= i < |qs|
      ensures s'.procs[i] == Proc(qs[i].buckets,
                                  AloneAt(p, store0, now, qs, i).charged,
                                  AloneAt(p, store0, now, qs, i).status)
    {
      if i < |front| {
        assert front[..i] == qs[..i];
        assert AloneAt(p, store0, now, front, i) == AloneAt(p, store0, now, qs, i);
      }
    }
  }

  /** The one-at-a-time execution is a run of the same protocol. */
  lemma {:induction false} SerialIsARun(p: Params, store0: Store, now: nat, qs: seq<Proc>)
    requires forall i :: 0 <= i < |qs| ==> WellFormed(p, qs[i].buckets)
    ensures Feasible(p, State(store0, now, [], []), SerialEvents(p, store0, now, qs))
    ensures RanSerially(p, store0, now, qs,
                        Run(p, State(store0, now, [], []), SerialEvents(p, store0, now, qs)))
  {
    if qs != [] {
      var n := |qs| - 1;
      SerialIsARun(p, store0, now, qs[..n]);
      var s0 := State(store0, now, [], []);
      var before := SerialEvents(p, store0, now, qs[..n]);
      var s := Run(p, s0, before);
      ArriveAndStep(p, s, qs[n].buckets);
      var w := AloneAt(p, store0, now, qs, n);
      var last := [Arrive(qs[n].buckets)] + Steps(n, w.charged);
      RunConcat(p, s0, before, last);
      OneMoreSerially(p, store0, now, qs, s, Run(p, s, last));
    }
  }
}
