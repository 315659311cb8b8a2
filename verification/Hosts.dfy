/** Reading a tenant's host out of the Host header. */
module Hosts {
  import opened Wrappers
  import opened Text

  predicate IsDot(c: char) {
    c == '.'
  }

  /** What stands before the last colon, if there is one. */
  function BeforePort(value: string): string {
    var colon := LastIndexOf(value, ':');
    if colon >= 0 then value[..colon] else value
  }

  function NormalizeHost(value: string): Option<string> {
    var value := TrimEnd(Trim(value), IsDot);
    var host := Lower(Trim(BeforePort(value)));
    if host == "" then None else Some(host)
  }

  /** A host as the table of domains is meant to hold it. */
  predicate CanonicalHost(h: string) {
    && h != ""
    && Lower(h) == h
    && ':' !in h
    && Trimmed(h, IsWhite)
    && !IsDot(h[|h| - 1])
  }

  function Dots(n: nat): (s: string)
    ensures |s| == n && All(s, IsDot)
  {
    seq(n, _ => '.')
  }

  /** One way to write a host: some casing of it, dots, perhaps a port, dots again, and whitespace
      around it all. */
  datatype Spelling = Spelling(
    left: string,
    cased: string,
    dots: nat,
    port: Option<string>,
    lastDots: nat,
    right: string)

  ghost predicate Spells(w: Spelling, host: string) {
    && All(w.left, IsWhite)
    && All(w.right, IsWhite)
    && Lower(w.cased) == host
    && (w.port.Some? ==> All(w.port.value, IsDigit))
  }

  function PortText(port: Option<string>): string {
    match port
    case None => ""
    case Some(digits) => ":" + digits
  }

  function Written(w: Spelling): string {
    w.left + (w.cased + Dots(w.dots) + PortText(w.port) + Dots(w.lastDots)) + w.right
  }

  /** The dots that stand before a port. */
  function KeptDots(w: Spelling): nat {
    if w.port.Some? then w.dots else 0
  }

  lemma LowerKeepsKind(c: char)
    ensures IsWhite(LowerChar(c)) == IsWhite(c) && IsDot(LowerChar(c)) == IsDot(c) && (LowerChar(c) == ':' <==> c == ':')
  {
  }

  lemma CasedIsLikeHost(cased: string, host: string)
    requires Lower(cased) == host && CanonicalHost(host)
    ensures cased != "" && ':' !in cased && Trimmed(cased, IsWhite) && !IsDot(cased[|cased| - 1])
  {
    LowerKeepsKind(cased[0]);
    LowerKeepsKind(cased[|cased| - 1]);
    forall i | 0 <= i < |cased| ensures cased[i] != ':' {
      assert host[i] == LowerChar(cased[i]);
    }
  }

  lemma LowerLength(s: string)
    ensures |Lower(s)| == |s|
  {
  }

  lemma LowerConcat(a: string, b: string)
    ensures Lower(a + b) == Lower(a) + Lower(b)
  {
  }

  lemma {:induction false} LastColon(before: string, after: string)
    requires ':' !in after
    ensures LastIndexOf(before + ":" + after, ':') == |before|
  {
    if after == "" {
      assert before + ":" + after == before + ":";
    } else {
      var n := |after| - 1;
      LastColon(before, after[..n]);
      assert (before + ":" + after)[..|before| + 1 + n] == before + ":" + after[..n];
    }
  }

  lemma NoColon(s: string)
    requires ':' !in s
    ensures LastIndexOf(s, ':') == -1
  {
  }

  /** What a spelling is normalised to: the host, with the dots that stand before a port. */
  lemma SpellingNormalizes(w: Spelling, host: string)
    requires CanonicalHost(host) && Spells(w, host)
    ensures NormalizeHost(Written(w)) == Some(host + Dots(KeptDots(w)))
  {
    CasedIsLikeHost(w.cased, host);
    if w.port.Some? {
      WithPort(w, host);
    } else {
      WithoutPort(w, host);
      assert host + Dots(0) == host;
    }
  }

  /** Whitespace and then dots are dropped from the end. */
  lemma StripsTo(left: string, base: string, dots: string, right: string)
    requires All(left, IsWhite) && All(right, IsWhite) && All(dots, IsDot)
    requires base != "" && Trimmed(base, IsWhite) && !IsDot(base[|base| - 1])
    ensures TrimEnd(Trim(left + (base + dots) + right), IsDot) == base
  {
    TrimBothDrops(left, base + dots, right, IsWhite);
    TrimEndDrops(base, dots, IsDot);
  }

  lemma PortEnds(name: string, digits: string)
    requires name != "" && Trimmed(name, IsWhite) && All(digits, IsDigit)
    ensures var base := name + ":" + digits;
            Trimmed(base, IsWhite) && !IsDot(base[|base| - 1]) && ':' !in digits
  {
  }

  lemma WithPort(w: Spelling, host: string)
    requires CanonicalHost(host) && Spells(w, host) && w.port.Some?
    requires w.cased != "" && ':' !in w.cased && Trimmed(w.cased, IsWhite) && !IsDot(w.cased[|w.cased| - 1])
    ensures NormalizeHost(Written(w)) == Some(host + Dots(w.dots))
  {
    hide TrimEnd, Trim, Lower, IsWhite, IsDot;
    var name := w.cased + Dots(w.dots);
    var base := name + ":" + w.port.value;
    assert w.cased + Dots(w.dots) + PortText(w.port) + Dots(w.lastDots) == base + Dots(w.lastDots);
    DotsAreKept(w.cased, w.dots);
    PortEnds(name, w.port.value);
    StripsTo(w.left, base, Dots(w.lastDots), w.right);
    LastColon(name, w.port.value);
    assert base[..|name|] == name;
    LowerConcat(w.cased, Dots(w.dots));
  }

  lemma DotsAreKept(cased: string, n: nat)
    requires cased != "" && Trimmed(cased, IsWhite)
    ensures Trimmed(cased + Dots(n), IsWhite) && Trim(cased + Dots(n)) == cased + Dots(n)
    ensures Lower(Dots(n)) == Dots(n)
  {
    TrimFixes(cased + Dots(n), IsWhite);
  }

  lemma WithoutPort(w: Spelling, host: string)
    requires CanonicalHost(host) && Spells(w, host) && w.port.None?
    requires w.cased != "" && ':' !in w.cased && Trimmed(w.cased, IsWhite) && !IsDot(w.cased[|w.cased| - 1])
    ensures NormalizeHost(Written(w)) == Some(host)
  {
    var dots := Dots(w.dots) + Dots(w.lastDots);
    assert w.cased + Dots(w.dots) + PortText(w.port) + Dots(w.lastDots) == w.cased + dots;
    StripsTo(w.left, w.cased, dots, w.right);
    NoColon(w.cased);
    TrimFixes(w.cased, IsWhite);
  }

  /** A spelling collapses to its host exactly when it has no port or no dots before the port:
      dots are only dropped at the very end. */
  lemma SpellingCollapsesIff(w: Spelling, host: string)
    requires CanonicalHost(host) && Spells(w, host)
    ensures NormalizeHost(Written(w)) == Some(host) <==> w.port.None? || w.dots == 0
  {
    SpellingNormalizes(w, host);
    var kept := host + Dots(KeptDots(w));
    assert |kept| == |host| + KeptDots(w);
    if |kept| == |host| {
      assert kept == host;
    }
  }

  /** A fully qualified name with a port is normalised to something else than without the port. */
  lemma DottedNameWithPort()
    ensures NormalizeHost("edu.:443") == Some("edu.")
    ensures NormalizeHost("edu.") == Some("edu")
  {
    hide NormalizeHost;
    assert CanonicalHost("edu") && Lower("edu") == "edu";
    assert Dots(1) == "." && Dots(0) == "";
    var w := Spelling("", "edu", 1, Some("443"), 0, "");
    assert Written(w) == "edu.:443";
    SpellingNormalizes(w, "edu");
    var v := Spelling("", "edu", 1, None, 0, "");
    assert Written(v) == "edu.";
    SpellingNormalizes(v, "edu");
    assert "edu" + "." == "edu." && "edu" + "" == "edu";
  }

  lemma TrimShortens(s: string)
    ensures |Trim(s)| <= |s|
    ensures |Trim(s)| == |s| ==> Trim(s) == s
  {
    hide TrimBoth, IsWhite;
    var left, right := TrimBothParts(s, IsWhite);
    if |Trim(s)| == |s| {
      assert left == "" && right == "";
    }
  }

  lemma DotsShorten(s: string)
    ensures |TrimEnd(s, IsDot)| <= |s|
    ensures |TrimEnd(s, IsDot)| == |s| ==> TrimEnd(s, IsDot) == s
  {
    hide TrimEnd, IsDot;
    var dots := TrimEndParts(s, IsDot);
    if |TrimEnd(s, IsDot)| == |s| {
      assert dots == "";
    }
  }

  lemma PortShortens(value: string)
    ensures |BeforePort(value)| <= |value|
    ensures |BeforePort(value)| == |value| ==> LastIndexOf(value, ':') == -1
  {
  }

  /** A host that comes out of all steps as it went in was changed by none: none lengthens it. */
  lemma NothingDropped(h: string)
    requires h == Lower(Trim(BeforePort(TrimEnd(Trim(h), IsDot))))
    ensures Trim(h) == h && TrimEnd(h, IsDot) == h && LastIndexOf(h, ':') == -1
  {
    hide *;
    var value := TrimEnd(Trim(h), IsDot);
    LowerLength(Trim(BeforePort(value)));
    TrimShortens(BeforePort(value));
    PortShortens(value);
    DotsShorten(Trim(h));
    TrimShortens(h);
  }

  /** The hosts that are left as they are, are exactly the canonical ones. */
  lemma NormalizeFixesCanonical(h: string)
    ensures NormalizeHost(h) == Some(h) <==> CanonicalHost(h)
  {
    if CanonicalHost(h) {
      CanonicalIsFixed(h);
    }
    if NormalizeHost(h) == Some(h) {
      hide Trim, TrimEnd, Lower, LastIndexOf, IsDot, BeforePort;
      FixedIsCanonical(h);
    }
  }

  lemma CanonicalIsFixed(h: string)
    requires CanonicalHost(h)
    ensures NormalizeHost(h) == Some(h)
  {
    hide NormalizeHost, IsWhite, IsDot, LowerChar;
    var w := Spelling("", h, 0, None, 0, "");
    assert Written(w) == h;
    SpellingNormalizes(w, h);
    assert h + "" == h;
  }

  lemma FixedIsCanonical(h: string)
    requires h != "" && h == Lower(Trim(BeforePort(TrimEnd(Trim(h), IsDot))))
    ensures CanonicalHost(h)
  {
    hide TrimBoth, TrimEnd, Lower, LastIndexOf;
    NothingDropped(h);
    assert BeforePort(h) == h;
    assert forall j :: 0 <= j < |h| ==> h[j] != ':';
    var left, right := TrimBothParts(h, IsWhite);
    var dots := TrimEndParts(h, IsDot);
  }

  // ----- Case ----------------------------------------------------------------------------------------

  lemma {:induction false} LastColonOfLower(s: string)
    ensures LastIndexOf(Lower(s), ':') == LastIndexOf(s, ':')
  {
    if s != "" {
      var n := |s| - 1;
      LowerKeepsKind(s[n]);
      assert Lower(s)[..n] == Lower(s[..n]);
      LastColonOfLower(s[..n]);
    }
  }

  lemma BeforePortOfLower(s: string)
    ensures BeforePort(Lower(s)) == Lower(BeforePort(s))
  {
    LastColonOfLower(s);
    var colon := LastIndexOf(s, ':');
    if colon >= 0 {
      assert Lower(s)[..colon] == Lower(s[..colon]);
    }
  }

  lemma LowerTwice(s: string)
    ensures Lower(Lower(s)) == Lower(s)
  {
    hide Lower;
    LowerForgetsCase(s, Lower(s));
  }

  lemma NormalizeIgnoresLower(value: string)
    ensures NormalizeHost(Lower(value)) == NormalizeHost(value)
  {
    hide Trim, TrimEnd, Lower, BeforePort;
    TrimOfLower(value);
    DotsOfLower(Trim(value));
    var rest := TrimEnd(Trim(value), IsDot);
    BeforePortOfLower(rest);
    TrimOfLower(BeforePort(rest));
    LowerTwice(Trim(BeforePort(rest)));
  }

  lemma DotsOfLower(s: string)
    ensures TrimEnd(Lower(s), IsDot) == Lower(TrimEnd(s, IsDot))
  {
    forall c ensures IsDot(LowerChar(c)) == IsDot(c) {
      LowerKeepsKind(c);
    }
    TrimEndMaps(s, IsDot, LowerChar);
  }

  /** The case of ASCII letters in a Host value makes no difference. */
  lemma CaseIsIgnored(v: string, w: string)
    requires SameLetters(v, w)
    ensures NormalizeHost(v) == NormalizeHost(w)
  {
    hide NormalizeHost, Lower;
    LowerForgetsCase(v, w);
    NormalizeIgnoresLower(v);
    NormalizeIgnoresLower(w);
  }

  /** And a normalised host has no upper-case ASCII letter, no whitespace at its ends, and is not empty. */
  lemma NormalizedHosts(value: string, h: string)
    requires NormalizeHost(value) == Some(h)
    ensures h != "" && Trimmed(h, IsWhite)
    ensures forall i :: 0 <= i < |h| ==> !('A' <= h[i] <= 'Z')
  {
    hide TrimBoth, Lower, IsWhite, BeforePort, TrimEnd;
    var name := BeforePort(TrimEnd(Trim(value), IsDot));
    var left, right := TrimBothParts(name, IsWhite);
    var core := Trim(name);
    LowerForgetsCase(core, core);
    assert Trimmed(Lower(core), IsWhite) by {
      TrimmedOfLower(core);
    }
  }

  lemma TrimmedOfLower(s: string)
    requires Trimmed(s, IsWhite)
    ensures Trimmed(Lower(s), IsWhite)
  {
    if s != "" {
      LowerKeepsKind(s[0]);
      LowerKeepsKind(s[|s| - 1]);
    }
  }

  /** What stands before the last colon decides, whatever stands before it and however many colons:
      trimmed and in lower case it is the host, if anything is left. */
  lemma LastColonDecides(left: string, name: string, port: string, dots: string, right: string)
    requires All(left, IsWhite) && All(right, IsWhite) && All(dots, IsDot)
    requires ':' !in port
    requires var base := name + ":" + port; Trimmed(base, IsWhite) && !IsDot(base[|base| - 1])
    ensures NormalizeHost(left + (name + ":" + port + dots) + right)
            == if Trim(name) == "" then None else Some(Lower(Trim(name)))
  {
    hide TrimEnd, TrimBoth, Lower, IsWhite, IsDot;
    StripsTo(left, name + ":" + port, dots, right);
    LastColon(name, port);
    assert (name + ":" + port)[..|name|] == name;
    LowerLength(Trim(name));
  }
}
