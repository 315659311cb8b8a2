/** Lower-case hexadecimal text, for digests and UUIDs. */
module Hexadecimal {
  import opened Wrappers
  import opened Utf8

  function HexDigit(d: nat): char
    requires d < 16
  {
    if d < 10 then '0' + d as char else 'a' + (d - 10) as char
  }

  /** `{byte:02x}` */
  function HexByte(b: Byte): string {
    [HexDigit(b / 16), HexDigit(b % 16)]
  }

  function Hex(bytes: seq<Byte>): string {
    if bytes == [] then "" else Hex(bytes[..|bytes| - 1]) + HexByte(bytes[|bytes| - 1])
  }

  predicate IsHexChar(c: char) {
    '0' <= c <= '9' || 'a' <= c <= 'f'
  }

  function HexValue(c: char): nat
    requires IsHexChar(c)
  {
    if c <= '9' then (c - '0') as nat else (c - 'a') as nat + 10
  }

  lemma HexByteRoundTrip(b: Byte)
    ensures IsHexChar(HexByte(b)[0]) && IsHexChar(HexByte(b)[1])
    ensures HexValue(HexByte(b)[0]) * 16 + HexValue(HexByte(b)[1]) == b
  {
  }

  /** Reads hexadecimal text back, two characters a byte. */
  function Unhex(s: string): Option<seq<Byte>> {
    if s == "" then Some([])
    else if |s| == 1 || !IsHexChar(s[|s| - 2]) || !IsHexChar(s[|s| - 1]) then None
    else
      match Unhex(s[..|s| - 2])
      case None => None
      case Some(bytes) => Some(bytes + [HexValue(s[|s| - 2]) * 16 + HexValue(s[|s| - 1])])
  }

  /** n bytes print as 2n hexadecimal characters. */
  lemma {:induction false} HexShape(bytes: seq<Byte>)
    ensures |Hex(bytes)| == 2 * |bytes|
    ensures forall i :: 0 <= i < |Hex(bytes)| ==> IsHexChar(Hex(bytes)[i])
  {
    if bytes != [] {
      HexShape(bytes[..|bytes| - 1]);
      HexByteRoundTrip(bytes[|bytes| - 1]);
    }
  }

  /** Byte strings of any length are read back from their hexadecimal text. */
  lemma {:induction false} UnhexOfHex(bytes: seq<Byte>)
    ensures Unhex(Hex(bytes)) == Some(bytes)
  {
    if bytes != [] {
      var n := |bytes| - 1;
      UnhexOfHex(bytes[..n]);
      HexByteRoundTrip(bytes[n]);
      var s := Hex(bytes);
      assert s[..|s| - 2] == Hex(bytes[..n]);
      assert bytes == bytes[..n] + [bytes[n]];
    }
  }

  lemma {:induction false} HexConcat(a: seq<Byte>, b: seq<Byte>)
    ensures Hex(a + b) == Hex(a) + Hex(b)
  {
    if b == [] {
      assert a + b == a;
    } else {
      var n := |b| - 1;
      HexConcat(a, b[..n]);
      assert (a + b)[..|a| + n] == a + b[..n];
    }
  }

  lemma HexIsInjective(a: seq<Byte>, b: seq<Byte>)
    ensures Hex(a) == Hex(b) <==> a == b
  {
    UnhexOfHex(a);
    UnhexOfHex(b);
  }
}
