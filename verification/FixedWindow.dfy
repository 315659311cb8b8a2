/**
 What a fixed-window counter does to one key, as a property of that key's list of hits alone.
 Nothing here mentions the store: the protocol is proved to produce such lists, and the
 limiter's promises are proved of every such list.
 */
module FixedWindow {
  import opened Wrappers
  import opened RateLimitMachine

  function Last(hits: seq<Hit>): Hit
    requires hits != []
  {
    hits[|hits| - 1]
  }

  function Front(hits: seq<Hit>): seq<Hit>
    requires hits != []
  {
    hits[..|hits| - 1]
  }

  /** When the generation of the last hit began: the time of the latest hit that returned 1. */
  function Start(hits: seq<Hit>): nat
    requires hits != []
  {
    if Last(hits).count == 1 || |hits| == 1 then Last(hits).time else Start(Front(hits))
  }

  /** The hits of a fixed-window counter: time does not go back, and a hit returns one more than
      the one before it while less than `window` has passed since the generation began, else 1. */
  predicate WellTimed(window: nat, hits: seq<Hit>) {
    if hits == [] then true
    else if |hits| == 1 then hits[0].count == 1
    else
      && WellTimed(window, Front(hits))
      && Last(Front(hits)).time <= Last(hits).time
      && Last(hits).count == if Last(hits).time < Start(Front(hits)) + window
                             then Last(Front(hits)).count + 1
                             else 1
  }

  predicate Passes(h: Hit, limit: nat) {
    h.count <= limit
  }

  /** The number of hits at times in the half-open interval [from, until). */
  function HitsIn(hits: seq<Hit>, from: int, until: int): nat {
    if hits == [] then 0
    else HitsIn(Front(hits), from, until) + if from <= Last(hits).time < until then 1 else 0
  }

  /** How many of them are let through. */
  function PassesIn(hits: seq<Hit>, limit: nat, from: int, until: int): nat {
    if hits == [] then 0
    else PassesIn(Front(hits), limit, from, until)
         + if from <= Last(hits).time < until && Passes(Last(hits), limit) then 1 else 0
  }

  // ----- One generation -------------------------------------------------------------------

  lemma {:induction false} LastIsInItsWindow(window: nat, hits: seq<Hit>)
    requires window > 0 && hits != [] && WellTimed(window, hits)
    ensures Last(hits).count >= 1
    ensures Start(hits) <= Last(hits).time < Start(hits) + window
  {
    if |hits| > 1 {
      LastIsInItsWindow(window, Front(hits));
    }
  }

  lemma {:induction false} NoHitsAfterLast(window: nat, hits: seq<Hit>, limit: nat, from: int, until: int)
    requires hits != [] && WellTimed(window, hits) && Last(hits).time < from
    ensures HitsIn(hits, from, until) == 0 && PassesIn(hits, limit, from, until) == 0
  {
    if |hits| > 1 {
      NoHitsAfterLast(window, Front(hits), limit, from, until);
    }
  }

  /** The count a hit returns is the number of hits since its generation began, and of these
      exactly the first `limit` are let through. */
  lemma {:induction false} GenerationAdmitsFirst(window: nat, hits: seq<Hit>, limit: nat)
    requires window > 0 && hits != [] && WellTimed(window, hits)
    ensures var until := Last(hits).time + 1;
            var n := HitsIn(hits, Start(hits), until);
            && Last(hits).count == n
            && PassesIn(hits, limit, Start(hits), until) == Min(n, limit)
  {
    if |hits| > 1 {
      var before := Front(hits);
      var until := Last(hits).time + 1;
      LastIsInItsWindow(window, before);
      if Last(hits).count == 1 {
        NoHitsAfterLast(window, before, limit, Start(hits), until);
      } else {
        GenerationAdmitsFirst(window, before, limit);
        WidenUntil(window, before, limit, Start(before), Last(before).time + 1, until);
      }
    }
  }

  lemma {:induction false} WidenUntil(window: nat, hits: seq<Hit>, limit: nat, from: int, until: int, later: int)
    requires hits != [] && WellTimed(window, hits) && Last(hits).time < until <= later
    ensures HitsIn(hits, from, until) == HitsIn(hits, from, later)
    ensures PassesIn(hits, limit, from, until) == PassesIn(hits, limit, from, later)
  {
    if |hits| > 1 {
      WidenUntil(window, Front(hits), limit, from, until, later);
    }
  }

  /** Hits of one generation have consecutive counts, whatever other keys' hits come between. */
  lemma {:induction false} SameGeneration(window: nat, hits: seq<Hit>, i: nat)
    requires window > 0 && WellTimed(window, hits) && i < |hits|
    requires WellTimed(window, hits[..i + 1])
    requires Last(hits).time < Start(hits[..i + 1]) + window
    ensures Start(hits) == Start(hits[..i + 1])
    ensures Last(hits).count == hits[i].count + |hits| - 1 - i
  {
    if i + 1 == |hits| {
      assert hits[..i + 1] == hits;
    } else {
      var before := Front(hits);
      assert before[..i + 1] == hits[..i + 1];
      SameGeneration(window, before, i);
      LastIsInItsWindow(window, before);
    }
  }

  lemma {:induction false} PrefixWellTimed(window: nat, hits: seq<Hit>, n: nat)
    requires WellTimed(window, hits) && n <= |hits|
    ensures WellTimed(window, hits[..n])
  {
    if n == |hits| {
      assert hits[..n] == hits;
    } else {
      PrefixWellTimed(window, Front(hits), n);
      assert Front(hits)[..n] == hits[..n];
    }
  }

  /** Once a bucket has turned a hit away it turns every later hit of that generation away. */
  lemma DeniedStaysDenied(window: nat, hits: seq<Hit>, limit: nat, i: nat, j: nat)
    requires window > 0 && WellTimed(window, hits) && i < j < |hits|
    requires !Passes(hits[i], limit)
    requires hits[j].time < Start(hits[..i + 1]) + window
    ensures !Passes(hits[j], limit)
  {
    hide WellTimed, Start;
    PrefixWellTimed(window, hits, j + 1);
    PrefixWellTimed(window, hits, i + 1);
    assert hits[..j + 1][..i + 1] == hits[..i + 1];
    SameGeneration(window, hits[..j + 1], i);
  }

  // ----- Reopening ------------------------------------------------------------------------

  /** The first hit at or after the end of a generation's window returns 1: nothing that
      happens inside the window, turned away or not, moves its end. */
  lemma FirstHitAfterWindowReopens(window: nat, hits: seq<Hit>, n: nat, i: nat)
    requires window > 0 && WellTimed(window, hits) && 0 < n <= i < |hits|
    requires hits[i].time >= Start(hits[..n]) + window
    requires forall j :: n <= j < i ==> hits[j].time < Start(hits[..n]) + window
    ensures hits[i].count == 1
  {
    hide WellTimed, Start;
    PrefixWellTimed(window, hits, i + 1);
    PrefixWellTimed(window, hits, i);
    PrefixWellTimed(window, hits, n);
    assert Front(hits[..i + 1]) == hits[..i];
    assert hits[..i][..n] == hits[..n];
    StaysInItsGeneration(window, hits[..i], n);
    LastReopens(window, hits[..i + 1]);
  }

  lemma LastReopens(window: nat, hits: seq<Hit>)
    requires |hits| > 1 && WellTimed(window, hits) && Last(hits).time >= Start(Front(hits)) + window
    ensures Last(hits).count == 1
  {
  }

  lemma StaysInItsGeneration(window: nat, hits: seq<Hit>, n: nat)
    requires window > 0 && WellTimed(window, hits) && 0 < n <= |hits|
    requires WellTimed(window, hits[..n])
    requires n < |hits| ==> Last(hits).time < Start(hits[..n]) + window
    ensures Start(hits) == Start(hits[..n])
  {
    LastIsInItsWindow(window, hits[..n]);
    if n == |hits| {
      assert hits[..n] == hits;
    } else {
      SameGeneration(window, hits, n - 1);
    }
  }

  // ----- Any interval ---------------------------------------------------------------------

  /** `limit` for each whole window in `gap`. */
  function Whole(window: nat, limit: nat, gap: nat): nat
    requires window > 0
  {
    if gap < window then 0 else limit + Whole(window, limit, gap - window)
  }

  lemma {:induction false} WholeGrows(window: nat, limit: nat, a: nat, b: nat)
    requires window > 0 && a <= b
    ensures Whole(window, limit, a) <= Whole(window, limit, b)
  {
    if a >= window {
      WholeGrows(window, limit, a - window, b - window);
    }
  }

  lemma {:induction false} WholeBelow(window: nat, limit: nat, gap: nat, k: nat)
    requires window > 0 && k > 0 && gap < k * window
    ensures Whole(window, limit, gap) <= (k - 1) * limit
  {
    if gap >= window {
      assert k > 1 && gap - window < (k - 1) * window;
      WholeBelow(window, limit, gap - window, k - 1);
      assert (k - 1) * limit == (k - 2) * limit + limit;
    } else {
      assert 0 <= (k - 1) * limit;
    }
  }

  /**
   An upper bound on the hits let through at or after `from`, given the generation of the last
   one.  A generation that began before `from` spent its first pass there.  One that began at
   `start` >= from was preceded inside the interval by at most one full generation for each
   whole window since `from`, and by the rest of one that began before.
   */
  function Allowance(window: nat, limit: nat, from: int, start: int, count: nat): int
    requires window > 0
  {
    if start < from then Min(count, limit) - 1
    else Whole(window, limit, start - from) + limit - 1 + Min(count, limit)
  }

  lemma {:induction false} PassesWithinAllowance(window: nat, hits: seq<Hit>, limit: nat, from: int, until: int)
    requires window > 0 && limit > 0 && hits != [] && WellTimed(window, hits)
    requires Last(hits).time < until
    ensures PassesIn(hits, limit, from, until)
            <= Allowance(window, limit, from, Start(hits), Last(hits).count)
  {
    LastIsInItsWindow(window, hits);
    if |hits| > 1 {
      var before := Front(hits);
      LastIsInItsWindow(window, before);
      PassesWithinAllowance(window, before, limit, from, until);
      if Last(hits).count == 1 {
        if from <= Start(before) {
          WholeGrows(window, limit, Start(before) - from, Start(hits) - from - window);
        } else if Start(hits) < from {
          NoHitsAfterLast(window, before, limit, from, until);
        }
      }
    }
  }

  /** The sliding-interval bound: an interval of k windows lets through at most
      (k + 1) * limit - 1 hits. */
  lemma {:induction false} SlidingBound(window: nat, hits: seq<Hit>, limit: nat, from: int, k: nat)
    requires window > 0 && limit > 0 && k > 0 && WellTimed(window, hits)
    ensures PassesIn(hits, limit, from, from + k * window) <= (k + 1) * limit - 1
  {
    var until := from + k * window;
    assert (k + 1) * limit == (k - 1) * limit + 2 * limit;
    assert 0 <= (k - 1) * limit;
    if hits == [] {
    } else if Last(hits).time >= until {
      SlidingBound(window, Front(hits), limit, from, k);
    } else {
      PassesWithinAllowance(window, hits, limit, from, until);
      LastIsInItsWindow(window, hits);
      if from <= Start(hits) {
        WholeBelow(window, limit, Start(hits) - from, k);
      }
    }
  }

  lemma {:induction false} LongerIntervalPassesMore(hits: seq<Hit>, limit: nat, from: int, until: int, later: int)
    requires until <= later
    ensures PassesIn(hits, limit, from, until) <= PassesIn(hits, limit, from, later)
  {
    if hits != [] {
      LongerIntervalPassesMore(Front(hits), limit, from, until, later);
    }
  }

  // ----- A counter that never ends ----------------------------------------------------------

  /** Every hit returns one more than the one before it, for ever. */
  predicate NeverResets(hits: seq<Hit>) {
    forall i :: 0 <= i < |hits| ==> hits[i].count == i + 1
  }

  predicate InTimeOrder(hits: seq<Hit>) {
    forall i, j :: 0 <= i < j < |hits| ==> hits[i].time <= hits[j].time
  }

  /** Its hits are those of a counter whose window has not ended yet. */
  lemma {:induction false} NeverResetsIsWellTimed(window: nat, hits: seq<Hit>)
    requires NeverResets(hits) && InTimeOrder(hits)
    requires hits != [] ==> Last(hits).time < window
    ensures WellTimed(window, hits)
  {
    if |hits| > 1 {
      NeverResetsIsWellTimed(window, Front(hits));
    }
  }
}
