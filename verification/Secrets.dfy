/** One-time codes and the stored form of secrets.  SHA-256 is a parameter: any function from
    bytes to 32 bytes. */
module Secrets {
  import opened Wrappers
  import opened Text
  import opened Utf8
  import opened Numbers
  import opened Hexadecimal

  datatype AuthError = OtpInvalid

  type Digest = d: seq<Byte> | |d| == 32 witness seq(32, _ => 0)

  type Sha256 = seq<Byte> -> Digest

  // ----- Hashes ------------------------------------------------------------------------------------

  function HashText(sha256: Sha256, secret: string): string {
    Hex(sha256(Encode(secret)))
  }

  /** `hash_secret` */
  method HashSecret(sha256: Sha256, secret: string) returns (output: string)
    ensures output == HashText(sha256, secret)
    ensures |output| == 64
    ensures Unhex(output) == Some(sha256(Encode(secret)))
  {
    var digest := sha256(Encode(secret));
    output := "";
    var i := 0;
    while i < |digest|
      invariant 0 <= i <= |digest|
      invariant output == Hex(digest[..i])
    {
      assert digest[..i + 1][..i] == digest[..i];
      output := output + HexByte(digest[i]);
      i := i + 1;
    }
    assert digest[..i] == digest;
    HexShape(digest);
    UnhexOfHex(digest);
  }

  /** `OtpService::verify` */
  predicate Verify(sha256: Sha256, candidate: string, expectedHash: string) {
    HashText(sha256, candidate) == expectedHash
  }

  /** The stored text loses nothing of the digest: a candidate passes exactly when its digest is
      that of the code. */
  lemma VerifyComparesDigests(sha256: Sha256, candidate: string, code: string)
    ensures Verify(sha256, candidate, HashText(sha256, code))
            <==> sha256(Encode(candidate)) == sha256(Encode(code))
  {
    HexIsInjective(sha256(Encode(candidate)), sha256(Encode(code)));
  }

  predicate Collision(sha256: Sha256, a: seq<Byte>, b: seq<Byte>) {
    a != b && sha256(a) == sha256(b)
  }

  /** A candidate passes exactly when it is the code or collides with it: neither the encoding of
      the text nor the printing of the digest accepts anything else. */
  lemma VerifyAcceptsOnlyCollisions(sha256: Sha256, candidate: string, code: string)
    ensures Verify(sha256, candidate, HashText(sha256, code))
            <==> candidate == code || Collision(sha256, Encode(candidate), Encode(code))
  {
    VerifyComparesDigests(sha256, candidate, code);
    if Encode(candidate) == Encode(code) {
      EncodeIsInjective(candidate, code);
    }
  }

  // ----- One-time codes -------------------------------------------------------------------------------

  const CODES: nat := 1_000_000

  datatype OtpCode = OtpCode(code: string)

  /** `OtpCode::generate`, from the 32 random bits it draws */
  function Generate(random: nat): OtpCode {
    OtpCode(Padded(random % CODES, 6))
  }

  /** `OtpCode::from_code` */
  function FromCode(code: string): Result<OtpCode, AuthError> {
    if ByteLength(code) != 6 || exists i :: 0 <= i < |code| && !IsDigit(code[i])
    then Err(OtpInvalid)
    else Ok(OtpCode(code))
  }

  lemma SixDigits()
    ensures Pow10(6) == CODES
  {
    assert Pow10(5) == 100_000 by {
      assert Pow10(3) == 1000;
    }
  }

  /** The accepted strings are exactly the zero-padded prints of the numbers below a million. */
  lemma FromCodeAccepts(code: string)
    ensures FromCode(code).Ok? <==> exists v: nat :: v < CODES && Padded(v, 6) == code
  {
    SixDigits();
    if FromCode(code).Ok? {
      AsciiLength(code);
      PaddedIsOnto(code);
      assert Value(code) < CODES && Padded(Value(code), 6) == code;
    }
    if v: nat :| v < CODES && Padded(v, 6) == code {
      PaddedRoundTrip(v, 6);
      AsciiLength(code);
    }
  }

  /** And different numbers print differently. */
  lemma CodesAreDistinct(v: nat, w: nat)
    requires v < CODES && w < CODES
    ensures Padded(v, 6) == Padded(w, 6) <==> v == w
  {
    SixDigits();
    PaddedRoundTrip(v, 6);
    PaddedRoundTrip(w, 6);
  }

  /** Every generated code is accepted and verifies against its own hash, and every accepted code
      can be generated. */
  lemma GeneratedCodesAreTheAcceptedOnes(sha256: Sha256, random: nat, code: string)
    ensures var code := Generate(random).code;
            |code| == 6 && All(code, IsDigit) && Value(code) == random % 1_000_000
    ensures FromCode(Generate(random).code) == Ok(Generate(random))
    ensures Verify(sha256, Generate(random).code, HashText(sha256, Generate(random).code))
    ensures FromCode(code).Ok? ==> exists r: nat :: r <= U32_MAX && Generate(r).code == code
  {
    FromCodeAccepts(Generate(random).code);
    SixDigits();
    PaddedRoundTrip(random % CODES, 6);
    assert random % CODES < CODES;
    if FromCode(code).Ok? {
      FromCodeAccepts(code);
      var v: nat :| v < CODES && Padded(v, 6) == code;
      assert v % CODES == v;
      assert Generate(v).code == code;
    }
  }
}
