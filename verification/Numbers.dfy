/** Decimal printing and parsing, as `format!` and `str::parse` do them for unsigned integers. */
module Numbers {
  import opened Wrappers
  import opened Text

  const U32_MAX: nat := 0xFFFF_FFFF
  const U64_MAX: nat := 0xFFFF_FFFF_FFFF_FFFF

  lemma LargestValues()
    ensures U32_MAX == 4_294_967_295 && U64_MAX == 18_446_744_073_709_551_615
  {
  }

  function DigitChar(d: nat): char
    requires d < 10
  {
    '0' + d as char
  }

  function DigitValue(c: char): (d: nat)
    requires IsDigit(c)
    ensures d < 10 && DigitChar(d) == c
  {
    (c - '0') as nat
  }

  lemma DigitRoundTrip(d: nat)
    requires d < 10
    ensures IsDigit(DigitChar(d)) && DigitValue(DigitChar(d)) == d
  {
  }

  /** `{}` */
  function Dec(n: nat): (s: string)
    ensures s != "" && All(s, IsDigit)
  {
    if n < 10 then [DigitChar(n)] else Dec(n / 10) + [DigitChar(n % 10)]
  }

  /** The number a string of digits stands for. */
  function Value(s: string): nat
    requires All(s, IsDigit)
  {
    if s == "" then 0 else Value(s[..|s| - 1]) * 10 + DigitValue(s[|s| - 1])
  }

  lemma {:induction false} ValueOfDec(n: nat)
    ensures Value(Dec(n)) == n
  {
    DigitRoundTrip(n % 10);
    if n >= 10 {
      ValueOfDec(n / 10);
      assert Dec(n)[..|Dec(n)| - 1] == Dec(n / 10);
    } else {
      assert Dec(n)[..0] == "";
    }
  }

  /** The number a string of digits stands for, or None if it holds anything else. */
  function ParseDigits(s: string): Option<nat> {
    if s == "" then Some(0)
    else if !IsDigit(s[|s| - 1]) then None
    else
      match ParseDigits(s[..|s| - 1])
      case None => None
      case Some(n) => Some(n * 10 + DigitValue(s[|s| - 1]))
  }

  lemma {:induction false} ParseDigitsIsValue(s: string)
    ensures ParseDigits(s).Some? <==> All(s, IsDigit)
    ensures All(s, IsDigit) ==> ParseDigits(s) == Some(Value(s))
  {
    if s != "" {
      ParseDigitsIsValue(s[..|s| - 1]);
    }
  }

  /** `str::parse` for an unsigned type whose largest value is `max`: an optional '+', then
      at least one digit, and no overflow. */
  function ParseUnsigned(s: string, max: nat): Option<nat> {
    var digits := if s != "" && s[0] == '+' then s[1..] else s;
    if digits == "" then None
    else
      match ParseDigits(digits)
      case None => None
      case Some(n) => if n > max then None else Some(n)
  }

  /** Printing then parsing gives the number back exactly when the type can hold it. */
  lemma ParseOfDec(n: nat, max: nat)
    ensures ParseUnsigned(Dec(n), max) == if n <= max then Some(n) else None
  {
    ValueOfDec(n);
    ParseDigitsIsValue(Dec(n));
    assert IsDigit(Dec(n)[0]);
  }

  /** The texts of a number: its digits, with or without leading zeros, and perhaps a '+'. */
  ghost predicate Denotes(s: string, n: nat) {
    var digits := if s != "" && s[0] == '+' then s[1..] else s;
    digits != "" && All(digits, IsDigit) && Value(digits) == n
  }

  /** Exactly the texts of numbers that the type can hold are parsed. */
  lemma ParseUnsignedAccepts(s: string, max: nat, n: nat)
    ensures ParseUnsigned(s, max) == Some(n) <==> n <= max && Denotes(s, n)
  {
    ParseDigitsIsValue(if s != "" && s[0] == '+' then s[1..] else s);
  }

  // ----- Zero padding ---------------------------------------------------------------------------

  function Pow10(w: nat): (p: nat)
    ensures p > 0
  {
    if w == 0 then 1 else 10 * Pow10(w - 1)
  }

  function Zeros(n: nat): (s: string)
    ensures |s| == n && forall i :: 0 <= i < n ==> s[i] == '0'
  {
    seq(n, _ => '0')
  }

  /** `{:0width}` */
  function Padded(n: nat, width: nat): (s: string)
    ensures All(s, IsDigit) && |s| >= width
  {
    var s := Dec(n);
    if |s| < width then Zeros(width - |s|) + s else s
  }

  lemma {:induction false} ValueIgnoresZeros(k: nat, s: string)
    requires All(s, IsDigit)
    ensures All(Zeros(k) + s, IsDigit) && Value(Zeros(k) + s) == Value(s)
  {
    if s == "" {
      ZerosAreZero(k);
      assert Zeros(k) + s == Zeros(k);
    } else {
      var n := |s| - 1;
      ValueIgnoresZeros(k, s[..n]);
      assert (Zeros(k) + s)[..k + n] == Zeros(k) + s[..n];
    }
  }

  lemma {:induction false} ZerosAreZero(k: nat)
    ensures All(Zeros(k), IsDigit) && Value(Zeros(k)) == 0
  {
    if k > 0 {
      ZerosAreZero(k - 1);
      assert Zeros(k)[..k - 1] == Zeros(k - 1);
    }
  }

  lemma {:induction false} ValueIsBounded(s: string)
    requires All(s, IsDigit)
    ensures Value(s) < Pow10(|s|)
  {
    if s != "" {
      ValueIsBounded(s[..|s| - 1]);
    }
  }

  lemma {:induction false} DecLength(n: nat, w: nat)
    requires w > 0 && n < Pow10(w)
    ensures |Dec(n)| <= w
  {
    if n >= 10 {
      assert w > 1;
      DecLength(n / 10, w - 1);
    }
  }

  /** Digit strings of equal length and equal value are equal. */
  lemma {:induction false} ValueIsInjective(s: string, t: string)
    requires All(s, IsDigit) && All(t, IsDigit) && |s| == |t| && Value(s) == Value(t)
    ensures s == t
  {
    if s != "" {
      hide *;
      var n := |s| - 1;
      LastDigit(s, t);
      ValueIsInjective(s[..n], t[..n]);
      assert s == s[..n] + [s[n]] && t == t[..n] + [t[n]];
    }
  }

  lemma LastDigit(s: string, t: string)
    requires All(s, IsDigit) && All(t, IsDigit) && |s| == |t| > 0 && Value(s) == Value(t)
    ensures var n := |s| - 1;
            && All(s[..n], IsDigit) && All(t[..n], IsDigit)
            && Value(s[..n]) == Value(t[..n])
            && s[n] == t[n]
  {
    var n := |s| - 1;
    var d, e := DigitValue(s[n]), DigitValue(t[n]);
    assert Value(s) == Value(s[..n]) * 10 + d && Value(t) == Value(t[..n]) * 10 + e;
    assert d == e;
  }

  /** Numbers below 10^width print padded to exactly `width` digits and can be read back. */
  lemma PaddedRoundTrip(n: nat, width: nat)
    requires width > 0 && n < Pow10(width)
    ensures |Padded(n, width)| == width && Value(Padded(n, width)) == n
  {
    hide Dec, Value, Pow10;
    DecLength(n, width);
    ValueOfDec(n);
    if |Dec(n)| < width {
      ValueIgnoresZeros(width - |Dec(n)|, Dec(n));
    }
  }

  /** And every string of `width` digits is such a print. */
  lemma PaddedIsOnto(s: string)
    requires All(s, IsDigit) && s != ""
    ensures Value(s) < Pow10(|s|) && Padded(Value(s), |s|) == s
  {
    ValueIsBounded(s);
    PaddedRoundTrip(Value(s), |s|);
    ValueIsInjective(Padded(Value(s), |s|), s);
  }
}
