/**
 The string operations of the program: trimming, splitting, joining, and mapping characters.
 A string is a sequence of Unicode scalar values.
 */
module Text {

  // ----- Characters -------------------------------------------------------------------------

  /** The Unicode White_Space property, which `str::trim` uses. */
  predicate IsWhite(c: char) {
    if c < '\U{0080}' then '\t' <= c <= '\r' || c == ' ' else IsWideWhite(c)
  }

  predicate IsWideWhite(c: char) {
    || c == '\U{0085}' || c == '\U{00A0}' || c == '\U{1680}'
    || '\U{2000}' <= c <= '\U{200A}'
    || c == '\U{2028}' || c == '\U{2029}' || c == '\U{202F}' || c == '\U{205F}' || c == '\U{3000}'
  }

  predicate IsDigit(c: char) {
    '0' <= c <= '9'
  }

  predicate IsAlphanumeric(c: char) {
    'a' <= c <= 'z' || 'A' <= c <= 'Z' || IsDigit(c)
  }

  predicate IsUpper(c: char) {
    'A' <= c <= 'Z'
  }

  function LowerChar(c: char): char {
    if IsUpper(c) then c - 'A' + 'a' else c
  }

  // ----- Whole strings ----------------------------------------------------------------------

  ghost predicate All(s: string, f: char -> bool) {
    forall i :: 0 <= i < |s| ==> f(s[i])
  }

  function Map(s: string, f: char -> char): (t: string)
    ensures |t| == |s| && forall i :: 0 <= i < |s| ==> t[i] == f(s[i])
  {
    seq(|s|, i requires 0 <= i < |s| => f(s[i]))
  }

  function Lower(s: string): string {
    Map(s, LowerChar)
  }

  /** The 25 code points with the property White_Space. */
  lemma WhiteSpace(c: char)
    ensures IsWhite(c) <==>
            var n := c as int;
            || 0x9 <= n <= 0xD || n == 0x20 || n == 0x85 || n == 0xA0 || n == 0x1680
            || 0x2000 <= n <= 0x200A || n == 0x2028 || n == 0x2029 || n == 0x202F || n == 0x205F || n == 0x3000
  {
  }

  /** The same character, or the two cases of one ASCII letter. */
  predicate SameLetter(c: char, d: char) {
    || c == d
    || ('A' <= c <= 'Z' && d as int == c as int + 32)
    || ('A' <= d <= 'Z' && c as int == d as int + 32)
  }

  predicate SameLetters(s: string, t: string) {
    |s| == |t| && forall i :: 0 <= i < |s| ==> SameLetter(s[i], t[i])
  }

  /** Lower-casing leaves no upper-case ASCII letter, and forgets the case of these and nothing else. */
  lemma LowerForgetsCase(s: string, t: string)
    ensures Lower(s) == Lower(t) <==> SameLetters(s, t)
    ensures forall i :: 0 <= i < |Lower(s)| ==> !('A' <= Lower(s)[i] <= 'Z')
    ensures SameLetters(s, Lower(s))
  {
    if |s| == |t| {
      forall i | 0 <= i < |s| ensures LowerChar(s[i]) == LowerChar(t[i]) <==> SameLetter(s[i], t[i]) {
        LettersAgree(s[i], t[i]);
      }
      if Lower(s) == Lower(t) {
        forall i | 0 <= i < |s| ensures SameLetter(s[i], t[i]) {
          assert Lower(s)[i] == Lower(t)[i];
        }
      }
    }
  }

  lemma LettersAgree(c: char, d: char)
    ensures LowerChar(c) == LowerChar(d) <==> SameLetter(c, d)
  {
  }

  // ----- Trimming -----------------------------------------------------------------------------

  /** `trim_start_matches` */
  function TrimStart(s: string, f: char -> bool): string {
    if s != "" && f(s[0]) then TrimStart(s[1..], f) else s
  }

  /** `trim_end_matches` */
  function TrimEnd(s: string, f: char -> bool): string {
    if s != "" && f(s[|s| - 1]) then TrimEnd(s[..|s| - 1], f) else s
  }

  /** `trim_matches` */
  function TrimBoth(s: string, f: char -> bool): string {
    TrimEnd(TrimStart(s, f), f)
  }

  /** `trim` */
  function Trim(s: string): string {
    TrimBoth(s, IsWhite)
  }

  /** No character to trim at either end. */
  predicate Trimmed(s: string, f: char -> bool) {
    s != "" ==> !f(s[0]) && !f(s[|s| - 1])
  }

  lemma {:induction false} TrimStartDrops(left: string, core: string, f: char -> bool)
    requires All(left, f) && (core != "" ==> !f(core[0]))
    ensures TrimStart(left + core, f) == core
  {
    if left == "" {
      assert left + core == core;
    } else {
      assert (left + core)[1..] == left[1..] + core;
      TrimStartDrops(left[1..], core, f);
    }
  }

  lemma {:induction false} TrimEndDrops(core: string, right: string, f: char -> bool)
    requires All(right, f) && (core != "" ==> !f(core[|core| - 1]))
    ensures TrimEnd(core + right, f) == core
  {
    if right == "" {
      assert core + right == core;
    } else {
      var n := |right| - 1;
      assert (core + right)[..|core| + n] == core + right[..n];
      TrimEndDrops(core, right[..n], f);
    }
  }

  /** Trimming strips exactly the trimmable characters around a trimmed core. */
  lemma TrimBothDrops(left: string, core: string, right: string, f: char -> bool)
    requires All(left, f) && All(right, f) && Trimmed(core, f)
    ensures TrimBoth(left + core + right, f) == core
  {
    if core == "" {
      assert left + core + right == left + right + "";
      TrimStartDrops(left + right, "", f);
    } else {
      assert left + core + right == left + (core + right);
      TrimStartDrops(left, core + right, f);
      TrimEndDrops(core, right, f);
    }
  }

  lemma {:induction false} TrimStartParts(s: string, f: char -> bool) returns (left: string)
    ensures All(left, f) && s == left + TrimStart(s, f)
    ensures TrimStart(s, f) != "" ==> !f(TrimStart(s, f)[0])
  {
    left := "";
    if s != "" && f(s[0]) {
      left := TrimStartParts(s[1..], f);
      left := [s[0]] + left;
    }
  }

  lemma {:induction false} TrimEndParts(s: string, f: char -> bool) returns (right: string)
    ensures All(right, f) && s == TrimEnd(s, f) + right
    ensures TrimEnd(s, f) != "" ==> !f(TrimEnd(s, f)[|TrimEnd(s, f)| - 1])
  {
    right := "";
    if s != "" && f(s[|s| - 1]) {
      right := TrimEndParts(s[..|s| - 1], f);
      right := right + [s[|s| - 1]];
    }
  }

  /** Every string is its trimmed core with trimmable characters around it. */
  lemma TrimBothParts(s: string, f: char -> bool) returns (left: string, right: string)
    ensures All(left, f) && All(right, f) && Trimmed(TrimBoth(s, f), f)
    ensures s == left + TrimBoth(s, f) + right
  {
    left := TrimStartParts(s, f);
    right := TrimEndParts(TrimStart(s, f), f);
  }

  /** Trimmable characters added at the ends make no difference. */
  lemma TrimIgnores(left: string, s: string, right: string, f: char -> bool)
    requires All(left, f) && All(right, f)
    ensures TrimBoth(left + s + right, f) == TrimBoth(s, f)
  {
    var l, r := TrimBothParts(s, f);
    var core := TrimBoth(s, f);
    assert left + s + right == (left + l) + core + (r + right);
    TrimBothDrops(left + l, core, r + right, f);
  }

  /** Nothing is left exactly of blank text. */
  lemma BlankTrims(s: string)
    ensures Trim(s) == "" <==> All(s, IsWhite)
  {
    var left, right := TrimBothParts(s, IsWhite);
    if All(s, IsWhite) {
      assert s + "" + "" == s;
      TrimBothDrops(s, "", "", IsWhite);
    }
  }

  lemma TrimFixes(s: string, f: char -> bool)
    requires Trimmed(s, f)
    ensures TrimBoth(s, f) == s
  {
    assert "" + s + "" == s;
    TrimBothDrops("", s, "", f);
  }

  /** Trimming commutes with a change of letters that `f` does not see. */
  lemma {:induction false} TrimStartMaps(s: string, f: char -> bool, g: char -> char)
    requires forall c :: f(g(c)) == f(c)
    ensures TrimStart(Map(s, g), f) == Map(TrimStart(s, f), g)
  {
    if s != "" && f(s[0]) {
      TrimStartMaps(s[1..], f, g);
      assert Map(s, g)[1..] == Map(s[1..], g);
    }
  }

  lemma {:induction false} TrimEndMaps(s: string, f: char -> bool, g: char -> char)
    requires forall c :: f(g(c)) == f(c)
    ensures TrimEnd(Map(s, g), f) == Map(TrimEnd(s, f), g)
  {
    if s != "" && f(s[|s| - 1]) {
      var n := |s| - 1;
      TrimEndMaps(s[..n], f, g);
      assert Map(s, g)[..n] == Map(s[..n], g);
    }
  }

  lemma TrimOfLower(s: string)
    ensures Trim(Lower(s)) == Lower(Trim(s))
  {
    forall c ensures IsWhite(LowerChar(c)) == IsWhite(c) {
    }
    TrimStartMaps(s, IsWhite, LowerChar);
    TrimEndMaps(TrimStart(s, IsWhite), IsWhite, LowerChar);
  }

  // ----- Splitting and joining ------------------------------------------------------------------

  /** Where `c` first occurs, or the length of `s`. */
  function IndexOf(s: string, c: char): (i: nat)
    ensures i <= |s|
    ensures forall j :: 0 <= j < i ==> s[j] != c
    ensures i < |s| ==> s[i] == c
  {
    if s == "" || s[0] == c then 0 else 1 + IndexOf(s[1..], c)
  }

  /** `split` on a character */
  function Split(s: string, c: char): (parts: seq<string>)
    ensures parts != []
    ensures forall i :: 0 <= i < |parts| ==> c !in parts[i]
    decreases |s|
  {
    var i := IndexOf(s, c);
    if i == |s| then [s] else [s[..i]] + Split(s[i + 1..], c)
  }

  /** `join` with a character */
  function Join(parts: seq<string>, c: char): string {
    if parts == [] then ""
    else if |parts| == 1 then parts[0]
    else parts[0] + [c] + Join(parts[1..], c)
  }

  /** The first `c` of a string is where a `c`-free part ends. */
  lemma FirstIndex(part: string, rest: string, c: char)
    requires c !in part
    ensures IndexOf(part + [c] + rest, c) == |part|
  {
    var s := part + [c] + rest;
    assert s[|part|] == c;
    assert forall i :: 0 <= i < |part| ==> s[i] == part[i];
  }

  lemma {:induction false} SplitOfJoin(parts: seq<string>, c: char)
    requires parts != [] && forall i :: 0 <= i < |parts| ==> c !in parts[i]
    ensures Split(Join(parts, c), c) == parts
  {
    hide IndexOf;
    var s := Join(parts, c);
    if |parts| > 1 {
      SplitOfJoin(parts[1..], c);
      FirstIndex(parts[0], Join(parts[1..], c), c);
      assert s[..|parts[0]|] == parts[0] && s[|parts[0]| + 1..] == Join(parts[1..], c);
    }
  }

  /** The position of the last `c`, or -1. */
  function LastIndexOf(s: string, c: char): (i: int)
    ensures -1 <= i < |s|
    ensures i >= 0 ==> s[i] == c
    ensures forall j :: i < j < |s| ==> s[j] != c
  {
    if s == "" then -1
    else if s[|s| - 1] == c then |s| - 1
    else LastIndexOf(s[..|s| - 1], c)
  }
}
