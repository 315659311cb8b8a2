/** Sorted lists of strings without repetition: one list for each set of strings. */
module Canonical {
  import opened Utf8

  // ----- The order of strings -----------------------------------------------------------------------

  /** The order of `str`: `BelowIsByteOrder` shows that it is the order of the bytes. */
  predicate Below(s: string, t: string) {
    if t == "" then false
    else if s == "" then true
    else if s[0] != t[0] then s[0] < t[0]
    else Below(s[1..], t[1..])
  }

  lemma {:induction false} BelowIsByteOrder(s: string, t: string)
    ensures Below(s, t) <==> BytesBelow(Encode(s), Encode(t))
  {
    hide EncodeChar;
    if s != "" && t != "" {
      if s[0] == t[0] {
        BelowIsByteOrder(s[1..], t[1..]);
        CommonPrefix(EncodeChar(s[0]), Encode(s[1..]), Encode(t[1..]));
      } else if s[0] < t[0] {
        CharsKeepOrder(s[0], t[0], Encode(s[1..]), Encode(t[1..]));
      } else {
        CharsKeepOrder(t[0], s[0], Encode(t[1..]), Encode(s[1..]));
      }
    }
  }

  lemma {:induction false} BelowIsTotal(s: string, t: string)
    ensures s == t || Below(s, t) || Below(t, s)
  {
    if s != "" && t != "" && s[0] == t[0] {
      BelowIsTotal(s[1..], t[1..]);
      assert s == [s[0]] + s[1..] && t == [t[0]] + t[1..];
    }
  }

  lemma {:induction false} BelowIsAsymmetric(s: string, t: string)
    requires Below(s, t)
    ensures s != t && !Below(t, s)
  {
    if s != "" && s[0] == t[0] {
      BelowIsAsymmetric(s[1..], t[1..]);
    }
  }

  lemma {:induction false} BelowIsTransitive(s: string, t: string, u: string)
    requires Below(s, t) && Below(t, u)
    ensures Below(s, u)
  {
    if s != "" && s[0] == t[0] == u[0] {
      BelowIsTransitive(s[1..], t[1..], u[1..]);
    }
  }

  predicate AtMost(s: string, t: string) {
    !Below(t, s)
  }

  lemma AtMostIsTransitive(s: string, t: string, u: string)
    requires AtMost(s, t) && AtMost(t, u)
    ensures AtMost(s, u)
  {
    if Below(u, s) {
      BelowIsTotal(s, t);
      BelowIsTotal(t, u);
      if Below(s, t) {
        BelowIsTransitive(u, s, t);
      }
    }
  }

  // ----- Increasing lists ------------------------------------------------------------------------------

  predicate Sorted(list: seq<string>) {
    forall i, j :: 0 <= i < j < |list| ==> AtMost(list[i], list[j])
  }

  predicate Increasing(list: seq<string>) {
    forall i, j :: 0 <= i < j < |list| ==> Below(list[i], list[j])
  }

  function Elements(list: seq<string>): set<string> {
    set s | s in list
  }

  /** An increasing list is determined by its elements. */
  lemma {:induction false} IncreasingIsUnique(a: seq<string>, b: seq<string>)
    requires Increasing(a) && Increasing(b) && Elements(a) == Elements(b)
    ensures a == b
  {
    NoElements(a);
    NoElements(b);
    if a != [] && b != [] {
      FirstIsLeast(a, b);
      FirstIsLeast(b, a);
      BelowIsTotal(a[0], b[0]);
      TailElements(a);
      TailElements(b);
      IncreasingIsUnique(a[1..], b[1..]);
      assert a == [a[0]] + a[1..] && b == [b[0]] + b[1..];
    }
  }

  lemma NoElements(a: seq<string>)
    ensures Elements(a) == {} <==> a == []
  {
    if a != [] {
      assert a[0] in Elements(a);
    }
  }

  lemma FirstIsLeast(a: seq<string>, b: seq<string>)
    requires a != [] && b != [] && Increasing(a) && Elements(a) == Elements(b)
    ensures !Below(b[0], a[0])
  {
    assert b[0] in Elements(a);
    var i :| 0 <= i < |a| && a[i] == b[0];
    if i > 0 {
      BelowIsAsymmetric(a[0], a[i]);
    } else if Below(b[0], a[0]) {
      BelowIsAsymmetric(b[0], a[0]);
    }
  }

  lemma TailElements(a: seq<string>)
    requires a != [] && Increasing(a)
    ensures Elements(a[1..]) == Elements(a) - {a[0]}
  {
    assert a[0] !in a[1..] by {
      if a[0] in a[1..] {
        var i :| 0 < i < |a| && a[i] == a[0];
        BelowIsAsymmetric(a[0], a[i]);
      }
    }
    assert a == [a[0]] + a[1..];
  }

  // ----- The canonical list of a list ---------------------------------------------------------------------

  /** Puts a string in its place, unless it is there already. */
  function Insert(list: seq<string>, s: string): seq<string> {
    if list == [] then [s]
    else if list[0] == s then list
    else if Below(s, list[0]) then [s] + list
    else [list[0]] + Insert(list[1..], s)
  }

  lemma Prepend(s: string, list: seq<string>)
    requires Increasing(list) && forall i :: 0 <= i < |list| ==> Below(s, list[i])
    ensures Increasing([s] + list) && Elements([s] + list) == {s} + Elements(list)
  {
  }

  lemma Append(list: seq<string>, s: string)
    ensures Elements(list + [s]) == Elements(list) + {s}
  {
  }

  lemma {:induction false} InsertKeepsOrder(list: seq<string>, s: string)
    requires Increasing(list)
    ensures Increasing(Insert(list, s)) && Elements(Insert(list, s)) == Elements(list) + {s}
  {
    if list == [] {
    } else if list[0] == s {
      assert s in Elements(list);
    } else if Below(s, list[0]) {
      forall i | 0 <= i < |list| ensures Below(s, list[i]) {
        if i > 0 {
          BelowIsTransitive(s, list[0], list[i]);
        }
      }
      Prepend(s, list);
    } else {
      var rest := Insert(list[1..], s);
      InsertKeepsOrder(list[1..], s);
      BelowIsTotal(s, list[0]);
      forall i | 0 <= i < |rest| ensures Below(list[0], rest[i]) {
        assert rest[i] in Elements(rest);
        assert rest[i] == s || rest[i] in list[1..];
      }
      Prepend(list[0], rest);
      Prepend(list[0], list[1..]);
      assert list == [list[0]] + list[1..];
    }
  }

  /** The increasing list of the strings in a list. */
  function SortUnique(list: seq<string>): seq<string> {
    if list == [] then [] else Insert(SortUnique(list[1..]), list[0])
  }

  /** It is increasing and holds exactly the same strings. */
  lemma {:induction false} SortUniqueIsCanonical(list: seq<string>)
    ensures Increasing(SortUnique(list)) && Elements(SortUnique(list)) == Elements(list)
  {
    if list != [] {
      SortUniqueIsCanonical(list[1..]);
      InsertKeepsOrder(SortUnique(list[1..]), list[0]);
      assert list == [list[0]] + list[1..];
    }
  }

  /** Lists with the same strings, in any order and number, have the same canonical list. */
  lemma SameElementsSameList(a: seq<string>, b: seq<string>)
    ensures Elements(a) == Elements(b) <==> SortUnique(a) == SortUnique(b)
  {
    SortUniqueIsCanonical(a);
    SortUniqueIsCanonical(b);
    if Elements(a) == Elements(b) {
      IncreasingIsUnique(SortUnique(a), SortUnique(b));
    }
  }

  lemma IncreasingIsItsOwnList(a: seq<string>)
    requires Increasing(a)
    ensures SortUnique(a) == a
  {
    SortUniqueIsCanonical(a);
    IncreasingIsUnique(SortUnique(a), a);
  }

  // ----- Sorting and deduplicating in place ------------------------------------------------------------------

  /** `sort`: the same strings, none after a smaller one. */
  method Sort(a: array<string>)
    modifies a
    ensures Sorted(a[..])
    ensures multiset(a[..]) == multiset(old(a[..]))
  {
    var n := 0;
    while n < a.Length
      invariant 0 <= n <= a.Length
      invariant Sorted(a[..n])
      invariant multiset(a[..]) == multiset(old(a[..]))
    {
      SiftDown(a, n);
      n := n + 1;
    }
    assert a[..n] == a[..];
  }

  predicate SortedExcept(list: seq<string>, k: nat) {
    && (forall i, j :: 0 <= i < j < |list| && i != k && j != k ==> AtMost(list[i], list[j]))
    && (forall j :: k < j < |list| && k < |list| ==> AtMost(list[k], list[j]))
  }

  /** Moves the string at `n` down to its place among the sorted ones before it. */
  method SiftDown(a: array<string>, n: nat)
    requires n < a.Length && Sorted(a[..n])
    modifies a
    ensures Sorted(a[..n + 1])
    ensures multiset(a[..]) == multiset(old(a[..]))
  {
    hide AtMost, SortedExcept;
    var k := n;
    StartsSortedExcept(a[..n + 1], n);
    while k > 0 && Below(a[k], a[k - 1])
      invariant 0 <= k <= n
      invariant SortedExcept(a[..n + 1], k)
      invariant multiset(a[..]) == multiset(old(a[..]))
    {
      ghost var was := a[..];
      SwapKeepsOrder(was[..n + 1], k);
      SwapKeepsStrings(was, k);
      a[k - 1], a[k] := a[k], a[k - 1];
      assert a[..] == Swapped(was, k);
      assert a[..n + 1] == Swapped(was[..n + 1], k);
      k := k - 1;
    }
    assert k > 0 ==> AtMost(a[..n + 1][k - 1], a[..n + 1][k]) by {
      AtMostIsNotBelow(a[..n + 1], k);
    }
    PlacedIsSorted(a[..n + 1], k);
  }

  lemma StartsSortedExcept(list: seq<string>, n: nat)
    requires |list| == n + 1 && Sorted(list[..n])
    ensures SortedExcept(list, n)
  {
    forall i, j | 0 <= i < j < n ensures AtMost(list[i], list[j]) {
      assert list[..n][i] == list[i] && list[..n][j] == list[j];
    }
  }

  lemma AtMostIsNotBelow(list: seq<string>, k: nat)
    requires k < |list|
    ensures k > 0 && !Below(list[k], list[k - 1]) ==> AtMost(list[k - 1], list[k])
  {
  }

  /** The strings at `k - 1` and `k` exchanged. */
  function Swapped(list: seq<string>, k: nat): seq<string>
    requires 0 < k < |list|
  {
    list[k - 1 := list[k]][k := list[k - 1]]
  }

  lemma SwapKeepsStrings(list: seq<string>, k: nat)
    requires 0 < k < |list|
    ensures multiset(Swapped(list, k)) == multiset(list)
  {
  }

  lemma SwapKeepsOrder(list: seq<string>, k: nat)
    requires 0 < k < |list| && SortedExcept(list, k) && Below(list[k], list[k - 1])
    ensures SortedExcept(Swapped(list, k), k - 1)
  {
    BelowIsAsymmetric(list[k], list[k - 1]);
  }

  lemma PlacedIsSorted(list: seq<string>, k: nat)
    requires k < |list| && SortedExcept(list, k)
    requires k > 0 ==> AtMost(list[k - 1], list[k])
    ensures Sorted(list)
  {
    forall i, j | 0 <= i < j < |list| ensures AtMost(list[i], list[j]) {
      if j == k && i < k - 1 {
        AtMostIsTransitive(list[i], list[k - 1], list[k]);
      }
    }
  }

  /** `dedup`: drops every string that equals the one before it. */
  function Dedup(list: seq<string>): seq<string> {
    if list == [] then []
    else
      var n := |list| - 1;
      if n > 0 && list[n] == list[n - 1] then Dedup(list[..n]) else Dedup(list[..n]) + [list[n]]
  }

  lemma DedupOfNone(list: seq<string>)
    ensures Dedup(list[..0]) == []
  {
  }

  lemma DedupStep(list: seq<string>, n: nat)
    requires n < |list|
    ensures Dedup(list[..n + 1])
            == if n > 0 && list[n] == list[n - 1] then Dedup(list[..n]) else Dedup(list[..n]) + [list[n]]
  {
    assert list[..n + 1][..n] == list[..n];
  }

  method DedupInPlace(a: array<string>) returns (kept: nat)
    modifies a
    ensures kept <= a.Length && a[..kept] == Dedup(old(a[..]))
  {
    hide Dedup;
    ghost var was := a[..];
    kept := 0;
    var n := 0;
    DedupOfNone(was);
    while n < a.Length
      invariant 0 <= kept <= n <= a.Length
      invariant a[..kept] == Dedup(was[..n])
      invariant a[n..] == was[n..]
      invariant n > 0 ==> kept > 0 && a[kept - 1] == was[n - 1]
    {
      DedupStep(was, n);
      assert a[n] == was[n];
      if kept == 0 || a[n] != a[kept - 1] {
        a[kept] := a[n];
        kept := kept + 1;
        assert a[..kept] == Dedup(was[..n]) + [was[n]];
      }
      n := n + 1;
    }
    assert was[..n] == was;
  }

  lemma {:induction false} DedupKeepsElements(list: seq<string>)
    ensures Elements(Dedup(list)) == Elements(list)
  {
    if list != [] {
      var n := |list| - 1;
      DedupKeepsElements(list[..n]);
      assert list == list[..n] + [list[n]];
      Append(list[..n], list[n]);
      Append(Dedup(list[..n]), list[n]);
      if n > 0 {
        assert list[n - 1] in list[..n];
      }
    }
  }

  lemma {:induction false} DedupOfSorted(list: seq<string>)
    requires Sorted(list)
    ensures Increasing(Dedup(list))
    ensures list != [] ==> Dedup(list) != [] && Dedup(list)[|Dedup(list)| - 1] == list[|list| - 1]
  {
    if list != [] {
      var n := |list| - 1;
      DedupOfSorted(list[..n]);
      if n > 0 && list[n] != list[n - 1] {
        BelowIsTotal(list[n - 1], list[n]);
        var d := Dedup(list[..n]);
        forall i | 0 <= i < |d| ensures Below(d[i], list[n]) {
          if i < |d| - 1 {
            BelowIsTransitive(d[i], d[|d| - 1], list[n]);
          }
        }
      }
    }
  }

  /** Sorting and then dropping repetitions gives the canonical list. */
  method SortDedup(list: seq<string>) returns (r: seq<string>)
    ensures r == SortUnique(list)
  {
    var a := new string[|list|](i requires 0 <= i < |list| => list[i]);
    assert a[..] == list;
    Sort(a);
    ghost var sorted := a[..];
    SameElements(sorted, list);
    var kept := DedupInPlace(a);
    r := a[..kept];
    DedupOfSorted(sorted);
    DedupKeepsElements(sorted);
    SortUniqueIsCanonical(list);
    IncreasingIsUnique(r, SortUnique(list));
  }

  lemma SameElements(a: seq<string>, b: seq<string>)
    requires multiset(a) == multiset(b)
    ensures Elements(a) == Elements(b)
  {
    forall s ensures s in a <==> s in b {
      assert s in multiset(a) <==> s in multiset(b);
    }
  }
}
