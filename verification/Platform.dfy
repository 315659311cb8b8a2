/** Object keys, file names and idempotency keys. */
module Platform {
  import opened Wrappers
  import opened Text
  import opened Utf8
  import opened Hexadecimal

  datatype PlatformError = InvalidIdempotencyKey(message: string) | InvalidFilename(message: string)

  // ----- File names -----------------------------------------------------------------------------------

  predicate IsFileChar(c: char) {
    IsAlphanumeric(c) || c == '-' || c == '_' || c == '.'
  }

  function FileChar(c: char): char {
    if IsFileChar(c) then c else '-'
  }

  /** What a file name keeps, letter for letter. */
  lemma FileCharacters(c: char)
    ensures FileChar(c) ==
            if 'a' <= c <= 'z' || 'A' <= c <= 'Z' || '0' <= c <= '9' || c == '-' || c == '_' || c == '.' then c else '-'
  {
  }

  predicate IsDash(c: char) {
    c == '-'
  }

  /** Every other character a dash, and no dash at either end. */
  function Stripped(value: string): string {
    TrimBoth(Map(value, FileChar), IsDash)
  }

  predicate IsDots(s: string) {
    s == "" || s == "." || s == ".."
  }

  function SafeFilename(value: string): Result<string, PlatformError> {
    var trimmed := Trim(value);
    if trimmed == "" then Err(InvalidFilename("filename is required"))
    else
      var sanitized := Stripped(trimmed);
      if IsDots(sanitized) then Err(InvalidFilename("filename is invalid")) else Ok(sanitized)
  }

  lemma MapConcat(a: string, b: string, f: char -> char)
    ensures Map(a + b, f) == Map(a, f) + Map(b, f)
  {
  }

  lemma WhiteMapsToDashes(s: string)
    requires All(s, IsWhite)
    ensures All(Map(s, FileChar), IsDash)
  {
  }

  /** Whitespace around a name makes no difference to its stripped form. */
  lemma TrimmingIsStripping(value: string)
    ensures Stripped(Trim(value)) == Stripped(value)
  {
    var left, right := TrimBothParts(value, IsWhite);
    var core := Map(Trim(value), FileChar);
    WhiteMapsToDashes(left);
    WhiteMapsToDashes(right);
    MapConcat(left, Trim(value), FileChar);
    MapConcat(left + Trim(value), right, FileChar);
    TrimIgnores(Map(left, FileChar), core, Map(right, FileChar), IsDash);
  }

  /** The first trim only decides which error a name without usable characters gets: apart from
      that the result is a function of the stripped, untrimmed input. */
  lemma SafeFilenameIsStripped(value: string)
    ensures SafeFilename(value) ==
            if Trim(value) == "" then Err(InvalidFilename("filename is required"))
            else if Stripped(value) in ["", ".", ".."] then Err(InvalidFilename("filename is invalid"))
            else Ok(Stripped(value))
    ensures SafeFilename(value).Ok? <==> Stripped(value) !in ["", ".", ".."]
  {
    TrimmingIsStripping(value);
    if Trim(value) == "" {
      assert Map("", FileChar) == "";
      assert Stripped("") == "";
    }
  }

  /** A name made of file characters, with no dash at its ends, and not just dots. */
  predicate NormalName(s: string) {
    && (forall i :: 0 <= i < |s| ==> IsFileChar(s[i]))
    && Trimmed(s, IsDash)
    && !IsDots(s)
  }

  lemma FileCharIsOne(c: char)
    ensures IsFileChar(FileChar(c))
  {
  }

  lemma StrippedHasFileChars(value: string)
    ensures forall i :: 0 <= i < |Stripped(value)| ==> IsFileChar(Stripped(value)[i])
    ensures Trimmed(Stripped(value), IsDash)
  {
    hide TrimBoth, IsFileChar, FileChar, IsDash;
    var mapped := Map(value, FileChar);
    var left, right := TrimBothParts(mapped, IsDash);
    forall i | 0 <= i < |Stripped(value)| ensures IsFileChar(Stripped(value)[i]) {
      assert Stripped(value)[i] == mapped[|left| + i];
      FileCharIsOne(value[|left| + i]);
    }
  }

  lemma FileCharsAreNotWhite(s: string)
    requires s != "" && forall i :: 0 <= i < |s| ==> IsFileChar(s[i])
    ensures Trim(s) == s
  {
    assert IsFileChar(s[0]) && IsFileChar(s[|s| - 1]);
    TrimFixes(s, IsWhite);
  }

  /** The sanitised names are exactly the normal names: each result is one, and each of these is
      left as it is. */
  lemma SafeFilenameIsANormalForm(value: string)
    ensures SafeFilename(value).Ok? ==> NormalName(SafeFilename(value).value)
    ensures SafeFilename(value) == Ok(value) <==> NormalName(value)
  {
    StrippedHasFileChars(Trim(value));
    if NormalName(value) {
      FileCharsAreNotWhite(value);
      assert Map(value, FileChar) == value;
      TrimFixes(value, IsDash);
    }
  }

  /** Sanitising twice is sanitising once. */
  lemma SafeFilenameIsIdempotent(value: string)
    requires SafeFilename(value).Ok?
    ensures SafeFilename(SafeFilename(value).value) == SafeFilename(value)
  {
    SafeFilenameIsANormalForm(value);
    SafeFilenameIsANormalForm(SafeFilename(value).value);
  }

  // ----- UUIDs -------------------------------------------------------------------------------------------

  type Uuid = u: seq<Byte> | |u| == 16 witness seq(16, _ => 0)

  /** The text form of a UUID (section 4 of RFC 9562). */
  function UuidText(u: Uuid): string {
    Hex(u[..4]) + "-" + Hex(u[4..6]) + "-" + Hex(u[6..8]) + "-" + Hex(u[8..10]) + "-" + Hex(u[10..])
  }

  /** 32 hexadecimal digits, which read back as the 16 bytes, and hyphens after the 8th, 12th, 16th
      and 20th of them. */
  lemma UuidTextReadsBack(u: Uuid)
    ensures var s := UuidText(u);
            && |s| == 36
            && s[8] == s[13] == s[18] == s[23] == '-'
            && Unhex(s[..8] + s[9..13] + s[14..18] + s[19..23] + s[24..]) == Some(u)
  {
    hide UuidText, Hex;
    TextPieces(u);
    HexConcat(u[..4], u[4..6]);
    HexConcat(u[..4] + u[4..6], u[6..8]);
    HexConcat(u[..4] + u[4..6] + u[6..8], u[8..10]);
    HexConcat(u[..4] + u[4..6] + u[6..8] + u[8..10], u[10..]);
    assert u == u[..4] + u[4..6] + u[6..8] + u[8..10] + u[10..];
    UnhexOfHex(u);
  }

  lemma UuidTextShape(u: Uuid)
    ensures |UuidText(u)| == 36
    ensures '/' !in UuidText(u)
  {
    HexShape(u[..4]);
    HexShape(u[4..6]);
    HexShape(u[6..8]);
    HexShape(u[8..10]);
    HexShape(u[10..]);
    var t := UuidText(u);
    forall i | 0 <= i < |t| ensures t[i] != '/' {
      assert t[i] == '-' || IsHexChar(t[i]);
    }
  }

  lemma UuidTextIsInjective(u: Uuid, v: Uuid)
    requires UuidText(u) == UuidText(v)
    ensures u == v
  {
    var s, t := UuidText(u), UuidText(v);
    TextPieces(u);
    TextPieces(v);
    HexIsInjective(u[..4], v[..4]);
    HexIsInjective(u[4..6], v[4..6]);
    HexIsInjective(u[6..8], v[6..8]);
    HexIsInjective(u[8..10], v[8..10]);
    HexIsInjective(u[10..], v[10..]);
    assert u == u[..4] + u[4..6] + u[6..8] + u[8..10] + u[10..];
    assert v == v[..4] + v[4..6] + v[6..8] + v[8..10] + v[10..];
  }

  lemma TextPieces(u: Uuid)
    ensures var s := UuidText(u);
            && |s| == 36
            && s[..8] == Hex(u[..4])
            && s[9..13] == Hex(u[4..6])
            && s[14..18] == Hex(u[6..8])
            && s[19..23] == Hex(u[8..10])
            && s[24..] == Hex(u[10..])
            && s[8] == s[13] == s[18] == s[23] == '-'
  {
    HexShape(u[..4]);
    HexShape(u[4..6]);
    HexShape(u[6..8]);
    HexShape(u[8..10]);
    HexShape(u[10..]);
  }

  // ----- Object keys ---------------------------------------------------------------------------------------

  datatype Domain = Evidence | Attachments

  function DomainText(domain: Domain): string {
    match domain
    case Evidence => "evidence"
    case Attachments => "attachments"
  }

  function KeyText(tenant: Uuid, domain: Domain, owner: Uuid, objectId: Uuid, name: string): string {
    "tenants/" + UuidText(tenant) + "/" + DomainText(domain) + "/" + UuidText(owner) + "/" + UuidText(objectId) + "-" + name
  }

  function ObjectKey(tenant: Uuid, domain: Domain, owner: Uuid, objectId: Uuid, filename: string)
    : Result<string, PlatformError>
  {
    match SafeFilename(filename)
    case Err(e) => Err(e)
    case Ok(name) => Ok(KeyText(tenant, domain, owner, objectId, name))
  }

  /** A key read back: the texts of the tenant, domain, owner and objectId, and the file name. */
  function SplitObjectKey(key: string): Option<(string, string, string, string, string)> {
    var parts := Split(key, '/');
    if |parts| != 5 || parts[0] != "tenants" || |parts[4]| < 37 || parts[4][36] != '-' then None
    else Some((parts[1], parts[2], parts[3], parts[4][..36], parts[4][37..]))
  }

  lemma KeyIsJoined(tenant: Uuid, domain: Domain, owner: Uuid, objectId: Uuid, name: string)
    ensures KeyText(tenant, domain, owner, objectId, name)
            == Join(["tenants", UuidText(tenant), DomainText(domain), UuidText(owner), UuidText(objectId) + "-" + name], '/')
  {
    hide UuidText, DomainText;
    JoinFive("tenants", UuidText(tenant), DomainText(domain), UuidText(owner), UuidText(objectId) + "-" + name);
  }

  lemma JoinFive(a: string, b: string, c: string, d: string, e: string)
    ensures Join([a, b, c, d, e], '/') == a + "/" + b + "/" + c + "/" + d + "/" + e
  {
    var de, cde, bcde := [d, e], [c, d, e], [b, c, d, e];
    assert de[1..] == [e] && cde[1..] == de && bcde[1..] == cde && [a, b, c, d, e][1..] == bcde;
    assert Join(de, '/') == d + "/" + e;
    assert Join(cde, '/') == c + "/" + d + "/" + e;
    assert Join(bcde, '/') == b + "/" + c + "/" + d + "/" + e;
  }

  /** Every object key is read back: tenant, domain, owner, object and sanitised file name. */
  lemma ObjectKeySplitsBack(tenant: Uuid, domain: Domain, owner: Uuid, objectId: Uuid, filename: string)
    requires SafeFilename(filename).Ok?
    ensures SplitObjectKey(ObjectKey(tenant, domain, owner, objectId, filename).value)
            == Some((UuidText(tenant), DomainText(domain), UuidText(owner), UuidText(objectId), SafeFilename(filename).value))
  {
    hide UuidText, Stripped, Trim, KeyText, Split, Join;
    var name := SafeFilename(filename).value;
    SafeFilenameIsANormalForm(filename);
    UuidTextShape(tenant);
    UuidTextShape(owner);
    UuidTextShape(objectId);
    var last := UuidText(objectId) + "-" + name;
    var parts := ["tenants", UuidText(tenant), DomainText(domain), UuidText(owner), last];
    KeyIsJoined(tenant, domain, owner, objectId, name);
    assert '/' !in name by {
      assert forall i :: 0 <= i < |name| ==> IsFileChar(name[i]);
    }
    SplitOfJoin(parts, '/');
    assert last[..36] == UuidText(objectId) && last[37..] == name;
  }

  /** A key is refused exactly for a name that sanitising refuses, with the same complaint. */
  lemma ObjectKeyErrors(tenant: Uuid, domain: Domain, owner: Uuid, objectId: Uuid, filename: string)
    ensures ObjectKey(tenant, domain, owner, objectId, filename).Ok? <==> Stripped(filename) !in ["", ".", ".."]
    ensures ObjectKey(tenant, domain, owner, objectId, filename).Err? ==>
              ObjectKey(tenant, domain, owner, objectId, filename).error
              == InvalidFilename(if All(filename, IsWhite) then "filename is required" else "filename is invalid")
  {
    hide Stripped, KeyText, TrimBoth;
    SafeFilenameIsStripped(filename);
    BlankTrims(filename);
  }

  /** Evidence is kept under "evidence", attachments under "attachments". */
  lemma DomainsAreNamed(tenant: Uuid, owner: Uuid, objectId: Uuid, filename: string)
    requires SafeFilename(filename).Ok?
    ensures var name := SafeFilename(filename).value;
            && SplitObjectKey(ObjectKey(tenant, Evidence, owner, objectId, filename).value)
               == Some((UuidText(tenant), "evidence", UuidText(owner), UuidText(objectId), name))
            && SplitObjectKey(ObjectKey(tenant, Attachments, owner, objectId, filename).value)
               == Some((UuidText(tenant), "attachments", UuidText(owner), UuidText(objectId), name))
  {
    hide SplitObjectKey, ObjectKey, SafeFilename, UuidText;
    ObjectKeySplitsBack(tenant, Evidence, owner, objectId, filename);
    ObjectKeySplitsBack(tenant, Attachments, owner, objectId, filename);
  }

  /** Two keys coincide exactly when tenant, domain, owner and object are the same and the file
      names sanitise alike. */
  lemma ObjectKeysAreSeparate(
    tenant1: Uuid, domain1: Domain, owner1: Uuid, objectId1: Uuid, filename1: string,
    tenant2: Uuid, domain2: Domain, owner2: Uuid, objectId2: Uuid, filename2: string)
    requires SafeFilename(filename1).Ok? && SafeFilename(filename2).Ok?
    ensures ObjectKey(tenant1, domain1, owner1, objectId1, filename1) == ObjectKey(tenant2, domain2, owner2, objectId2, filename2)
            <==> && tenant1 == tenant2 && domain1 == domain2 && owner1 == owner2 && objectId1 == objectId2
                 && SafeFilename(filename1) == SafeFilename(filename2)
  {
    hide UuidText, SafeFilename, KeyText, SplitObjectKey;
    ObjectKeySplitsBack(tenant1, domain1, owner1, objectId1, filename1);
    ObjectKeySplitsBack(tenant2, domain2, owner2, objectId2, filename2);
    if ObjectKey(tenant1, domain1, owner1, objectId1, filename1) == ObjectKey(tenant2, domain2, owner2, objectId2, filename2) {
      UuidTextIsInjective(tenant1, tenant2);
      UuidTextIsInjective(owner1, owner2);
      UuidTextIsInjective(objectId1, objectId2);
    }
  }

  // ----- Idempotency keys --------------------------------------------------------------------------------------

  predicate IsIdempotencyChar(c: char) {
    IsAlphanumeric(c) || c == '-' || c == '_' || c == ':' || c == '.'
  }

  predicate AllIdempotencyChars(s: string) {
    forall i :: 0 <= i < |s| ==> IsIdempotencyChar(s[i])
  }

  function ParseIdempotencyKey(value: string): Result<string, PlatformError> {
    var trimmed := Trim(value);
    if trimmed == "" then Err(InvalidIdempotencyKey("idempotency key is required"))
    else if ByteLength(trimmed) > 128 then Err(InvalidIdempotencyKey("idempotency key must be at most 128 characters"))
    else if !AllIdempotencyChars(trimmed) then Err(InvalidIdempotencyKey("idempotency key contains unsupported characters"))
    else Ok(trimmed)
  }

  /** The keys that are left as they are: 1 to 128 allowed characters.  The byte limit of the code
      is a character limit on what it accepts. */
  predicate NormalKey(s: string) {
    1 <= |s| <= 128 && AllIdempotencyChars(s)
  }

  /** The allowed characters, letter for letter. */
  lemma IdempotencyCharacters(c: char)
    ensures IsIdempotencyChar(c)
            <==> 'a' <= c <= 'z' || 'A' <= c <= 'Z' || '0' <= c <= '9' || c == '-' || c == '_' || c == ':' || c == '.'
  {
  }

  /** Which complaint a rejected value gets. */
  lemma IdempotencyKeyErrors(value: string)
    requires ParseIdempotencyKey(value).Err?
    ensures var message := ParseIdempotencyKey(value).error.message;
            && (message == "idempotency key is required" <==> All(value, IsWhite))
            && (message == "idempotency key must be at most 128 characters" <==> ByteLength(Trim(value)) > 128)
            && (message == "idempotency key contains unsupported characters"
                <==> ByteLength(Trim(value)) <= 128 && !All(value, IsWhite))
            && ParseIdempotencyKey(value).error.InvalidIdempotencyKey?
  {
    hide TrimBoth, IsWhite;
    BlankTrims(value);
  }

  /** A value is accepted exactly when its trimmed form is a normal key, and gives that key. */
  lemma IdempotencyKeyAccepts(value: string, key: string)
    ensures ParseIdempotencyKey(value) == Ok(key) <==> key == Trim(value) && NormalKey(key)
  {
    var trimmed := Trim(value);
    if AllIdempotencyChars(trimmed) {
      AsciiLength(trimmed);
    }
  }

  /** Parsing a parsed key again gives it back, and only normal keys are their own parse. */
  lemma IdempotencyKeyIsANormalForm(value: string)
    ensures ParseIdempotencyKey(value).Ok? ==>
              ParseIdempotencyKey(ParseIdempotencyKey(value).value) == ParseIdempotencyKey(value)
    ensures ParseIdempotencyKey(value) == Ok(value) <==> NormalKey(value)
  {
    var trimmed := Trim(value);
    IdempotencyKeyAccepts(value, trimmed);
    IdempotencyKeyAccepts(value, value);
    IdempotencyKeyAccepts(trimmed, trimmed);
    if NormalKey(value) {
      assert IsIdempotencyChar(value[0]) && IsIdempotencyChar(value[|value| - 1]);
      TrimFixes(value, IsWhite);
    }
    if NormalKey(trimmed) {
      assert IsIdempotencyChar(trimmed[0]) && IsIdempotencyChar(trimmed[|trimmed| - 1]);
      TrimFixes(trimmed, IsWhite);
    }
  }
}
