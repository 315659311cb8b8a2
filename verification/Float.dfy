/** Dividing a whole number by 1000 in binary64 and printing the quotient to three decimals. */
module Float {
  import opened Wrappers
  import opened Text
  import opened Numbers

  function Pow2(e: nat): (p: nat)
    ensures p > 0
  {
    if e == 0 then 1 else 2 * Pow2(e - 1)
  }

  const TWO_52: nat := 0x10_0000_0000_0000
  const TWO_53: nat := 0x20_0000_0000_0000

  function Distance(a: int, b: int): nat {
    if a < b then b - a else a - b
  }

  /** The whole number nearest to a / b; of two equally near the even one. */
  function RoundHalfEven(a: nat, b: nat): nat
    requires b > 0
  {
    var q, r := a / b, a % b;
    if 2 * r < b || (2 * r == b && q % 2 == 0) then q else q + 1
  }

  lemma RoundIsNear(a: nat, b: nat)
    requires b > 0
    ensures 2 * Distance(RoundHalfEven(a, b) * b, a) <= b
    ensures 2 * Distance(RoundHalfEven(a, b) * b, a) == b ==> RoundHalfEven(a, b) % 2 == 0
  {
    var q := a / b;
    assert a == q * b + a % b;
    assert (q + 1) * b == q * b + b;
  }

  /** No multiple of b is nearer to a. */
  lemma RoundIsNearest(a: nat, b: nat, t: int)
    requires b > 0
    ensures Distance(RoundHalfEven(a, b) * b, a) <= Distance(t * b, a)
  {
    var s := RoundHalfEven(a, b);
    RoundIsNear(a, b);
    if t < s {
      MultiplesStep(t, s, b);
    } else if t > s {
      MultiplesStep(s, t, b);
    }
  }

  lemma MultiplesStep(s: int, t: int, b: nat)
    requires s < t
    ensures s * b + b <= t * b
  {
    var d: nat := t - s - 1;
    assert d * b >= 0;
    assert t * b == (s + 1 + d) * b == s * b + b + d * b;
  }

  /** A number nearer to m * b than half of b rounds to m. */
  lemma RoundsTo(a: nat, b: nat, m: nat)
    requires b > 0 && 2 * Distance(a, m * b) < b
    ensures RoundHalfEven(a, b) == m
  {
    var s := RoundHalfEven(a, b);
    RoundIsNear(a, b);
    if s < m {
      MultiplesStep(s, m, b);
    } else if s > m {
      MultiplesStep(m, s, b);
    }
  }

  // ----- The quotient --------------------------------------------------------------------------------

  /** sig / 2^scale */
  datatype Binary64 = Binary64(sig: nat, scale: nat)

  /** How often n must be doubled for n / 1000 to need all 53 bits. */
  function ScaleOf(n: nat): (e: nat)
    requires 0 < n < TWO_53 * 1000
    ensures TWO_52 * 1000 <= n * Pow2(e) < TWO_53 * 1000
    decreases TWO_52 * 1000 - n
  {
    if n >= TWO_52 * 1000 then 0
    else
      var e := ScaleOf(2 * n);
      assert n * Pow2(e + 1) == 2 * n * Pow2(e);
      e + 1
  }

  /** m / 1000, rounded to 53 significant bits, to nearest and ties to even. */
  function Quotient(m: nat): Binary64
    requires m <= U32_MAX
  {
    if m == 0 then Binary64(0, 0)
    else
      var e := ScaleOf(m);
      var sig := RoundHalfEven(m * Pow2(e), 1000);
      if sig == TWO_53 && e > 0 then Binary64(TWO_52, e - 1) else Binary64(sig, e)
  }

  lemma QuotientScale(m: nat)
    requires 0 < m <= U32_MAX
    ensures ScaleOf(m) > 0 && Pow2(ScaleOf(m)) > 4000
    ensures 2 * Distance(RoundHalfEven(m * Pow2(ScaleOf(m)), 1000) * 1000, m * Pow2(ScaleOf(m))) <= 1000
    ensures TWO_52 <= RoundHalfEven(m * Pow2(ScaleOf(m)), 1000) <= TWO_53
  {
    var p := Pow2(ScaleOf(m));
    RoundIsNear(m * p, 1000);
    if p <= 4000 {
      Times(p, 4000, m);
    }
  }

  /** A quotient of binary64: a 53-bit significand over a power of two.  Numbers of magnitude
      2^53 and more are whole, so they are covered by scale 0. */
  predicate Representable(f: Binary64) {
    f.sig < TWO_53 || f.scale == 0
  }

  /** |f - m/1000| <= |g - m/1000|, multiplied out. */
  predicate NotFarther(f: Binary64, g: Binary64, m: nat) {
    Distance(f.sig * 1000, m * Pow2(f.scale)) * Pow2(g.scale) <= Distance(g.sig * 1000, m * Pow2(g.scale)) * Pow2(f.scale)
  }

  lemma {:induction false} Pow2Adds(a: nat, b: nat)
    ensures Pow2(a + b) == Pow2(a) * Pow2(b)
  {
    if a > 0 {
      Pow2Adds(a - 1, b);
      assert Pow2(a) * Pow2(b) == 2 * (Pow2(a - 1) * Pow2(b));
    }
  }

  lemma ScaleDistance(a: int, b: int, k: nat)
    ensures Distance(a * k, b * k) == Distance(a, b) * k
  {
    if a < b {
      assert (b - a) * k == b * k - a * k;
      assert (b - a) * k >= 0;
    } else {
      assert (a - b) * k == a * k - b * k;
      assert (a - b) * k >= 0;
    }
  }

  lemma Times(a: nat, b: nat, k: nat)
    requires a <= b
    ensures a * k <= b * k
  {
    assert (b - a) * k >= 0;
  }

  lemma Cancel(a: nat, b: nat, k: nat)
    requires k > 0 && a * k <= b * k
    ensures a <= b
  {
    if a > b {
      MultiplesStep(b, a, k);
    }
  }

  lemma Reassociate(a: int, b: int, c: int)
    ensures a * b * c == a * (b * c) && a * b * c == a * c * b
  {
  }

  /** A coarse number's distance, seen on the finer grid. */
  lemma GridDistance(a: nat, m: nat, d: nat, p: nat)
    ensures Distance(a * d * 1000, m * (d * p)) == Distance(a * 1000, m * p) * d
  {
    Reassociate(a, d, 1000);
    Reassociate(m, p, d);
    ScaleDistance(a * 1000, m * p, d);
    assert d * p == p * d;
  }

  /** Coarser numbers, and whole ones, lie on the grid that was rounded to. */
  lemma NearestOnGrid(m: nat, e: nat, g: Binary64)
    requires g.scale <= e
    ensures NotFarther(Binary64(RoundHalfEven(m * Pow2(e), 1000), e), g, m)
  {
    hide RoundHalfEven, Distance, Pow2;
    var d, p := Pow2(e - g.scale), Pow2(g.scale);
    Pow2Adds(e - g.scale, g.scale);
    RoundIsNearest(m * Pow2(e), 1000, g.sig * d);
    GridDistance(g.sig, m, d, p);
    var near := Distance(RoundHalfEven(m * Pow2(e), 1000) * 1000, m * Pow2(e));
    var far := Distance(g.sig * 1000, m * p);
    Times(near, far * d, p);
    Reassociate(far, d, p);
  }

  /** With x = m * p / 1000 at least `least`, a number b / q at most `least` / p is no nearer to
      m / 1000 than `least` / p is. */
  lemma BelowLeast(m: nat, p: nat, q: nat, least: nat, b: nat, near: nat)
    requires p > 0 && near <= m * p - least && b * p <= least * q && least <= m * p
    ensures b <= m * q
    ensures near * q <= (m * q - b) * p
  {
    Times(near, m * p - least, q);
    Times(least, m * p, q);
    assert (m * p - least) * q == m * p * q - least * q;
    Reassociate(m, p, q);
    Cancel(b, m * q, p);
    assert (m * q - b) * p == m * q * p - b * p;
  }

  lemma Doubled(e: nat, k: nat)
    requires k > e
    ensures Pow2(k) >= 2 * Pow2(e)
  {
    Pow2Adds(k - e - 1, e);
    Times(1, Pow2(k - e - 1), Pow2(e));
  }

  /** Finer numbers have too few bits to come as near as the least 53-bit number of the grid. */
  lemma NearerThanFiner(m: nat, e: nat, g: Binary64)
    requires TWO_52 * 1000 <= m * Pow2(e) && g.scale > e && g.sig < TWO_53
    ensures NotFarther(Binary64(RoundHalfEven(m * Pow2(e), 1000), e), g, m)
  {
    hide RoundHalfEven, Pow2;
    var p, q := Pow2(e), Pow2(g.scale);
    RoundIsNearest(m * p, 1000, TWO_52);
    Doubled(e, g.scale);
    Times(g.sig * 1000, TWO_53 * 1000, p);
    Times(2 * p, q, TWO_52 * 1000);
    var near := Distance(RoundHalfEven(m * p, 1000) * 1000, m * p);
    BelowLeast(m, p, q, TWO_52 * 1000, g.sig * 1000, near);
  }

  /** The quotient is correctly rounded: it is a binary64 number, and none is nearer to m / 1000
      (section 4.3.1 of IEEE 754-2019). */
  lemma QuotientIsNearest(m: nat, g: Binary64)
    requires m <= U32_MAX && Representable(g)
    ensures Representable(Quotient(m))
    ensures NotFarther(Quotient(m), g, m)
  {
    if m > 0 {
      QuotientScale(m);
      var e := ScaleOf(m);
      var f := Binary64(RoundHalfEven(m * Pow2(e), 1000), e);
      if g.scale <= e {
        NearestOnGrid(m, e, g);
      } else {
        NearerThanFiner(m, e, g);
      }
      if f.sig == TWO_53 {
        HalveIsSame(m, e, g);
      }
    }
  }

  lemma HalveIsSame(m: nat, e: nat, g: Binary64)
    requires e > 0 && NotFarther(Binary64(TWO_53, e), g, m)
    ensures NotFarther(Binary64(TWO_52, e - 1), g, m)
  {
    var h, q := Pow2(e - 1), Pow2(g.scale);
    var near := Distance(TWO_52 * 1000, m * h);
    var far := Distance(g.sig * 1000, m * q);
    HalveTerms(m, h, q, near, far);
    assert Distance(TWO_53 * 1000, m * (2 * h)) == 2 * near;
  }

  lemma HalveTerms(m: nat, h: nat, q: nat, near: nat, far: nat)
    ensures m * (2 * h) == 2 * (m * h)
    ensures 2 * near * q == 2 * (near * q)
    ensures far * (2 * h) == 2 * (far * h)
  {
  }

  // ----- Printing ----------------------------------------------------------------------------------------

  /** Thousandths with the point in its place. */
  function Thousandths(k: nat): string {
    Dec(k / 1000) + "." + Padded(k % 1000, 3)
  }

  /** `{:.3}`: the exact value rounded to thousandths. */
  function Fixed3(f: Binary64): string {
    Thousandths(RoundHalfEven(f.sig * 1000, Pow2(f.scale)))
  }

  /** For every u32 the printed quotient is the number with its point moved three places: the
      rounding error of the division is too small to reach the third decimal. */
  lemma QuotientPrintsExactly(m: nat)
    requires m <= U32_MAX
    ensures Fixed3(Quotient(m)) == Thousandths(m)
  {
    if m == 0 {
      RoundsTo(0, Pow2(0), 0);
    } else {
      QuotientScale(m);
      var e := ScaleOf(m);
      var sig := RoundHalfEven(m * Pow2(e), 1000);
      if sig == TWO_53 {
        assert m * Pow2(e) == 2 * (m * Pow2(e - 1));
        assert 2 * Distance(TWO_52 * 1000, m * Pow2(e - 1)) <= 1000;
        RoundsTo(TWO_52 * 1000, Pow2(e - 1), m);
      } else {
        RoundsTo(sig * 1000, Pow2(e), m);
      }
    }
  }

  /** Thousandths read back. */
  function ReadThousandths(s: string): Option<nat> {
    var parts := Split(s, '.');
    if |parts| != 2 || |parts[1]| != 3 then None
    else
      match (ParseUnsigned(parts[0], U64_MAX), ParseDigits(parts[1]))
      case (Some(whole), Some(rest)) => Some(whole * 1000 + rest)
      case _ => None
  }

  lemma ThousandthsRoundTrip(k: nat)
    requires k <= U32_MAX
    ensures ReadThousandths(Thousandths(k)) == Some(k)
  {
    var whole, rest := Dec(k / 1000), Padded(k % 1000, 3);
    var parts := [whole, rest];
    assert '.' !in whole && '.' !in rest by {
      assert All(whole, IsDigit) && All(rest, IsDigit);
    }
    assert parts[1..] == [rest];
    assert Join(parts, '.') == Thousandths(k);
    SplitOfJoin(parts, '.');
    ParseOfDec(k / 1000, U64_MAX);
    assert Pow10(3) == 1000 by {
      assert Pow10(1) == 10;
    }
    PaddedRoundTrip(k % 1000, 3);
    ParseDigitsIsValue(rest);
  }
}
