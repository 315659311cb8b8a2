/** The bytes of a string (section 3 of RFC 3629). */
module Utf8 {

  type Byte = b: nat | b < 256

  function EncodeChar(c: char): (bytes: seq<Byte>)
    ensures 1 <= |bytes| <= 4
  {
    var n := c as nat;
    var high := n / 0x40;  // without the last six bits, and so on
    var higher := high / 0x40;
    var highest := higher / 0x40;
    if n < 0x80 then [n]
    else if n < 0x800 then [0xC0 + high, 0x80 + n % 0x40]
    else if n < 0x10000 then [0xE0 + higher, 0x80 + high % 0x40, 0x80 + n % 0x40]
    else [0xF0 + highest, 0x80 + higher % 0x40, 0x80 + high % 0x40, 0x80 + n % 0x40]
  }

  /** `as_bytes` */
  function Encode(s: string): seq<Byte> {
    if s == "" then [] else EncodeChar(s[0]) + Encode(s[1..])
  }

  /** `len`, which counts bytes */
  function ByteLength(s: string): nat {
    |Encode(s)|
  }

  /** The first byte tells how many follow. */
  function Width(first: Byte): nat {
    if first < 0x80 then 1 else if first < 0xE0 then 2 else if first < 0xF0 then 3 else 4
  }

  lemma FirstByteTellsWidth(c: char)
    ensures Width(EncodeChar(c)[0]) == |EncodeChar(c)|
  {
  }

  /** A code is as short as can be, and an ASCII character is its own code. */
  lemma ShortestForm(c: char)
    ensures var n := c as int;
            |EncodeChar(c)| == if n < 0x80 then 1 else if n < 0x800 then 2 else if n < 0x10000 then 3 else 4
    ensures c as int < 0x80 ==> EncodeChar(c) == [c as int]
  {
  }

  /** The scalar value that the bytes of one character stand for. */
  function Decode(bytes: seq<Byte>): int
    requires 1 <= |bytes| <= 4
  {
    var n := |bytes|;
    var first: int := bytes[0];
    var second: int := if n > 1 then bytes[1] else 0;
    var third: int := if n > 2 then bytes[2] else 0;
    var fourth: int := if n > 3 then bytes[3] else 0;
    if n == 1 then first
    else if n == 2 then (first - 0xC0) * 0x40 + second - 0x80
    else if n == 3 then ((first - 0xE0) * 0x40 + second - 0x80) * 0x40 + third - 0x80
    else (((first - 0xF0) * 0x40 + second - 0x80) * 0x40 + third - 0x80) * 0x40 + fourth - 0x80
  }

  lemma DecodeOfEncode(c: char)
    ensures Decode(EncodeChar(c)) == c as nat
  {
  }

  lemma EncodeCharIsInjective(c: char, d: char)
    requires EncodeChar(c) == EncodeChar(d)
    ensures c == d
  {
    DecodeOfEncode(c);
    DecodeOfEncode(d);
  }

  /** Different strings have different bytes. */
  lemma {:induction false} EncodeIsInjective(s: string, t: string)
    requires Encode(s) == Encode(t)
    ensures s == t
  {
    if s != "" && t != "" {
      FirstByteTellsWidth(s[0]);
      FirstByteTellsWidth(t[0]);
      var a, b := EncodeChar(s[0]), EncodeChar(t[0]);
      assert a[0] == Encode(s)[0] && b[0] == Encode(t)[0];
      assert a == Encode(s)[..|a|] && b == Encode(t)[..|b|];
      EncodeCharIsInjective(s[0], t[0]);
      assert Encode(s[1..]) == Encode(s)[|a|..] && Encode(t[1..]) == Encode(t)[|b|..];
      EncodeIsInjective(s[1..], t[1..]);
    }
  }

  /** A string of ASCII characters has as many bytes as characters. */
  lemma {:induction false} AsciiLength(s: string)
    requires forall i :: 0 <= i < |s| ==> s[i] as nat < 0x80
    ensures ByteLength(s) == |s|
  {
    if s != "" {
      AsciiLength(s[1..]);
    }
  }

  // ----- The order of bytes ---------------------------------------------------------------

  /** Lexicographic order. */
  predicate BytesBelow(a: seq<Byte>, b: seq<Byte>) {
    if b == [] then false
    else if a == [] then true
    else if a[0] != b[0] then a[0] < b[0]
    else BytesBelow(a[1..], b[1..])
  }

  lemma {:induction false} CommonPrefix(x: seq<Byte>, a: seq<Byte>, b: seq<Byte>)
    ensures BytesBelow(x + a, x + b) == BytesBelow(a, b)
  {
    if x == [] {
      assert x + a == a && x + b == b;
    } else {
      CommonPrefix(x[1..], a, b);
      assert (x + a)[1..] == x[1..] + a && (x + b)[1..] == x[1..] + b;
    }
  }

  lemma LaterBytes(c: char, i: nat)
    requires 0 < i < |EncodeChar(c)|
    ensures 0x80 <= EncodeChar(c)[i] < 0xC0
  {
  }

  /** Longer codes stand for greater characters and begin with greater bytes. */
  lemma WidthsKeepOrder(c: char, d: char)
    requires |EncodeChar(c)| != |EncodeChar(d)| && c < d
    ensures EncodeChar(c)[0] < EncodeChar(d)[0]
  {
  }

  /** The bytes of two characters first differ as the characters do. */
  lemma CharsDiffer(c: char, d: char) returns (k: nat)
    requires c < d
    ensures k < |EncodeChar(c)| && k < |EncodeChar(d)|
    ensures EncodeChar(c)[..k] == EncodeChar(d)[..k] && EncodeChar(c)[k] < EncodeChar(d)[k]
  {
    var a, b := EncodeChar(c), EncodeChar(d);
    k := 0;
    if |a| != |b| {
      WidthsKeepOrder(c, d);
    } else {
      hide EncodeChar;
      DecodeOfEncode(c);
      DecodeOfEncode(d);
      forall i | 0 < i < |a| ensures 0x80 <= a[i] < 0xC0 && 0x80 <= b[i] < 0xC0 {
        LaterBytes(c, i);
        LaterBytes(d, i);
      }
      k := FirstDifference(a, b);
    }
  }

  /** The first place where codes of one length differ decides which stands for less. */
  lemma FirstDifference(a: seq<Byte>, b: seq<Byte>) returns (k: nat)
    requires 1 <= |a| == |b| <= 4 && Decode(a) < Decode(b)
    requires forall i :: 0 < i < |a| ==> 0x80 <= a[i] < 0xC0 && 0x80 <= b[i] < 0xC0
    ensures k < |a| && a[..k] == b[..k] && a[k] < b[k]
  {
    k := if a[0] != b[0] then 0 else if a[1] != b[1] then 1 else if a[2] != b[2] then 2 else 3;
  }

  lemma CharsKeepOrder(c: char, d: char, a: seq<Byte>, b: seq<Byte>)
    requires c < d
    ensures BytesBelow(EncodeChar(c) + a, EncodeChar(d) + b) && !BytesBelow(EncodeChar(d) + b, EncodeChar(c) + a)
  {
    hide EncodeChar;
    var k := CharsDiffer(c, d);
    var x, y := EncodeChar(c) + a, EncodeChar(d) + b;
    assert x == x[..k] + x[k..] && y == y[..k] + y[k..] && x[..k] == y[..k];
    CommonPrefix(x[..k], x[k..], y[k..]);
    CommonPrefix(x[..k], y[k..], x[k..]);
  }
}
