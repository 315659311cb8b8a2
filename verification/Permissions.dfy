/**
 Permission lists, as two crates build them on their own: `auth` for the claims of a token, `rbac`
 for the principal of a request.
 */
module Permissions {
  import opened Wrappers
  import opened Text
  import opened Headers
  import opened Canonical

  // ----- Trimming the parts --------------------------------------------------------------------------

  /** Each string trimmed, without the ones that are then empty. */
  function TrimmedNonEmpty(list: seq<string>): (parts: seq<string>)
    ensures forall i :: 0 <= i < |parts| ==> parts[i] != ""
  {
    if list == [] then []
    else (if Trim(list[0]) == "" then [] else [Trim(list[0])]) + TrimmedNonEmpty(list[1..])
  }

  /** Neither empty nor with whitespace at its ends. */
  predicate Clean(s: string) {
    s != "" && Trimmed(s, IsWhite)
  }

  lemma {:induction false} PartsAreClean(list: seq<string>)
    ensures forall s :: s in TrimmedNonEmpty(list) ==> Clean(s)
    ensures forall s :: s in TrimmedNonEmpty(list) <==> s != "" && exists t :: t in list && Trim(t) == s
  {
    if list != [] {
      var left, right := TrimBothParts(list[0], IsWhite);
      PartsAreClean(list[1..]);
      assert list == [list[0]] + list[1..];
      forall s ensures s in TrimmedNonEmpty(list) <==> s != "" && exists t :: t in list && Trim(t) == s {
        if s != "" && Trim(list[0]) == s {
          assert s in TrimmedNonEmpty(list);
        }
        if s in TrimmedNonEmpty(list[1..]) {
          var t :| t in list[1..] && Trim(t) == s;
          assert t in list;
        }
      }
    }
  }

  lemma {:induction false} CleanPartsStay(list: seq<string>)
    requires forall s :: s in list ==> Clean(s)
    ensures TrimmedNonEmpty(list) == list
  {
    if list != [] {
      assert list[0] in list;
      TrimFixes(list[0], IsWhite);
      CleanPartsStay(list[1..]);
    }
  }

  // ----- The claims of a token --------------------------------------------------------------------------

  function Claims(values: seq<string>): seq<string> {
    SortUnique(TrimmedNonEmpty(values))
  }

  /** `sorted_unique` */
  method SortedUnique(values: seq<string>) returns (r: seq<string>)
    ensures r == Claims(values)
  {
    var parts := [];
    var i := 0;
    while i < |values|
      invariant 0 <= i <= |values|
      invariant parts + TrimmedNonEmpty(values[i..]) == TrimmedNonEmpty(values)
    {
      var value := Trim(values[i]);
      if value != "" {
        parts := parts + [value];
      }
      i := i + 1;
    }
    assert parts == TrimmedNonEmpty(values);
    r := SortDedup(parts);
  }

  /** The claims are strictly increasing and hold exactly the trimmed, non-empty values. */
  lemma ClaimsAreCanonical(values: seq<string>)
    ensures Increasing(Claims(values))
    ensures forall s :: s in Claims(values) <==> s != "" && exists v :: v in values && Trim(v) == s
  {
    PartsAreClean(values);
    SortUniqueIsCanonical(TrimmedNonEmpty(values));
    forall s ensures s in Claims(values) <==> s in TrimmedNonEmpty(values) {
      assert s in Elements(Claims(values)) <==> s in Elements(TrimmedNonEmpty(values));
    }
  }

  lemma ClaimsAreClean(values: seq<string>)
    ensures forall s :: s in Claims(values) ==> Clean(s)
  {
    PartsAreClean(values);
    SortUniqueIsCanonical(TrimmedNonEmpty(values));
    forall s | s in Claims(values) ensures Clean(s) {
      assert s in Elements(TrimmedNonEmpty(values));
    }
  }

  /** Two lists of values give the same claims exactly when they hold the same trimmed,
      non-empty strings. */
  lemma ClaimsDependOnTheSet(a: seq<string>, b: seq<string>)
    ensures Claims(a) == Claims(b) <==> Elements(TrimmedNonEmpty(a)) == Elements(TrimmedNonEmpty(b))
  {
    SameElementsSameList(TrimmedNonEmpty(a), TrimmedNonEmpty(b));
  }

  // ----- The principal of a request ------------------------------------------------------------------------

  datatype Principal<U> = Principal(userId: Option<U>, permissions: seq<string>)

  function NewPrincipal<U>(userId: Option<U>, permissions: seq<string>): Principal<U> {
    Principal(userId, SortUnique(permissions))
  }

  /** `Principal::new` */
  method MakePrincipal<U>(userId: Option<U>, permissions: seq<string>) returns (p: Principal<U>)
    ensures p == NewPrincipal(userId, permissions)
    ensures p.userId == userId
    ensures Increasing(p.permissions) && Elements(p.permissions) == Elements(permissions)
  {
    var list := SortDedup(permissions);
    p := Principal(userId, list);
    SortUniqueIsCanonical(permissions);
  }

  /** Claims are left as they are by being made claims again, and by `Principal::new`. */
  lemma ClaimsAreStable<U>(userId: Option<U>, values: seq<string>)
    ensures Claims(Claims(values)) == Claims(values)
    ensures NewPrincipal(userId, Claims(values)).permissions == Claims(values)
  {
    ClaimsAreCanonical(values);
    ClaimsAreClean(values);
    CleanPartsStay(Claims(values));
    IncreasingIsItsOwnList(Claims(values));
  }

  /** `parse_permissions` */
  function ParsePermissions(value: string): seq<string> {
    TrimmedNonEmpty(Split(value, ','))
  }

  function HeaderPrincipal<U>(userId: Option<U>, value: string): Principal<U> {
    NewPrincipal(userId, ParsePermissions(value))
  }

  lemma {:induction false} CommaFreeParts(list: seq<string>)
    requires forall s :: s in list ==> ',' !in s
    ensures forall s :: s in TrimmedNonEmpty(list) ==> ',' !in s
  {
    if list != [] {
      var left, right := TrimBothParts(list[0], IsWhite);
      assert list[0] in list;
      CommaFreeParts(list[1..]);
    }
  }

  /** Joining a list of clean, comma-free strings and parsing the result gives the list. */
  lemma ParseOfJoin(list: seq<string>)
    requires forall s :: s in list ==> Clean(s) && ',' !in s
    ensures ParsePermissions(Join(list, ',')) == list
  {
    if list == [] {
      assert Split("", ',') == [""];
      assert Trim("") == "";
      assert [""][1..] == [];
    } else {
      SplitOfJoin(list, ',');
      CleanPartsStay(list);
    }
  }

  lemma ParsedIsCleanAndCommaFree(value: string)
    ensures forall s :: s in ParsePermissions(value) ==> Clean(s) && ',' !in s
  {
    PartsAreClean(Split(value, ','));
    CommaFreeParts(Split(value, ','));
  }

  /** For every header: joining the parsed principal's permissions with commas and parsing again
      gives the same principal. */
  lemma HeaderRoundTrip<U>(userId: Option<U>, value: string)
    ensures HeaderPrincipal(userId, Join(HeaderPrincipal(userId, value).permissions, ','))
            == HeaderPrincipal(userId, value)
  {
    var parsed := ParsePermissions(value);
    var list := SortUnique(parsed);
    ParsedIsCleanAndCommaFree(value);
    SortUniqueIsCanonical(parsed);
    forall s | s in list ensures Clean(s) && ',' !in s {
      assert s in Elements(parsed);
    }
    ParseOfJoin(list);
    IncreasingIsItsOwnList(list);
  }

  /** Trimming takes no comma away. */
  lemma TrimKeepsCommas(s: string)
    ensures ',' in Trim(s) <==> ',' in s
  {
    hide TrimBoth;
    var left, right := TrimBothParts(s, IsWhite);
  }

  lemma ClaimsHaveTheCommas(values: seq<string>)
    ensures (forall s :: s in Claims(values) ==> ',' !in s) <==> (forall v :: v in values ==> ',' !in v)
  {
    hide Trim, Claims;
    ClaimsAreCanonical(values);
    forall v ensures ',' in Trim(v) <==> ',' in v {
      TrimKeepsCommas(v);
    }
    if forall s :: s in Claims(values) ==> ',' !in s {
      forall v | v in values ensures ',' !in v {
        assert Trim(v) == "" || Trim(v) in Claims(values);
      }
    }
  }

  /** A token's claims sent as a header come back as the same permissions exactly when no value
      they were made of holds a comma. */
  lemma ClaimsSurviveTheHeader<U>(userId: Option<U>, values: seq<string>)
    ensures HeaderPrincipal(userId, Join(Claims(values), ',')).permissions == Claims(values)
            <==> forall v :: v in values ==> ',' !in v
  {
    hide Claims;
    var claims := Claims(values);
    ClaimsHaveTheCommas(values);
    ClaimsAreCanonical(values);
    ClaimsAreClean(values);
    if forall s :: s in claims ==> ',' !in s {
      ParseOfJoin(claims);
      IncreasingIsItsOwnList(claims);
    }
    var parsed := ParsePermissions(Join(claims, ','));
    if SortUnique(parsed) == claims {
      ParsedIsCleanAndCommaFree(Join(claims, ','));
      SortUniqueIsCanonical(parsed);
      forall s | s in claims ensures ',' !in s {
        assert s in Elements(parsed);
      }
    }
  }

  // ----- Deciding --------------------------------------------------------------------------------------------

  predicate HasPermission<U>(p: Principal<U>, permission: string) {
    exists i :: 0 <= i < |p.permissions| && p.permissions[i] == permission
  }

  predicate IsSatisfiedBy<U>(required: seq<string>, p: Principal<U>) {
    forall i :: 0 <= i < |required| ==> HasPermission(p, required[i])
  }

  /** A requirement is met exactly when what it names is included in what the principal was given:
      order and repetition do not matter on either side. */
  lemma SatisfiedIsInclusion<U>(required: seq<string>, userId: Option<U>, permissions: seq<string>)
    ensures IsSatisfiedBy(required, NewPrincipal(userId, permissions)) <==> Elements(required) <= Elements(permissions)
  {
    var p := NewPrincipal(userId, permissions);
    SortUniqueIsCanonical(permissions);
    if IsSatisfiedBy(required, p) {
      forall s | s in Elements(required) ensures s in Elements(permissions) {
        var i :| 0 <= i < |required| && required[i] == s;
        assert HasPermission(p, required[i]);
        assert s in Elements(p.permissions);
      }
    }
    if Elements(required) <= Elements(permissions) {
      forall i | 0 <= i < |required| ensures HasPermission(p, required[i]) {
        assert required[i] in Elements(required);
        assert required[i] in Elements(p.permissions);
      }
    }
  }

  /** More permissions never turn an accepted request away. */
  lemma SatisfiedIsMonotone<U>(required: seq<string>, userId: Option<U>, fewer: seq<string>, more: seq<string>)
    requires Elements(fewer) <= Elements(more)
    requires IsSatisfiedBy(required, NewPrincipal(userId, fewer))
    ensures IsSatisfiedBy(required, NewPrincipal(userId, more))
  {
    SatisfiedIsInclusion(required, userId, fewer);
    SatisfiedIsInclusion(required, userId, more);
  }

  /** `Principal::from_headers`; `parseUuid` is the UUID library's parser. */
  function FromHeaders<U>(headers: HeaderMap, parseUuid: string -> Option<U>): Result<Option<Principal<U>>, AppError> {
    match Get(headers, PERMISSIONS_HEADER)
    case None => Ok(None)
    case Some(Raw) => Err(BadRequest("permissions header is invalid"))
    case Some(Visible(permissions)) =>
      match Get(headers, USER_ID_HEADER)
      case None => Ok(Some(HeaderPrincipal(None, permissions)))
      case Some(Raw) => Err(BadRequest("user id header is invalid"))
      case Some(Visible(text)) =>
        match parseUuid(text)
        case None => Err(BadRequest("user id header is invalid"))
        case Some(id) => Ok(Some(HeaderPrincipal(Some(id), permissions)))
  }

  /** `enforce_permissions`, with the principal that an earlier layer may have left. */
  function Enforce<U>(
    required: seq<string>,
    known: Option<Principal<U>>,
    headers: HeaderMap,
    parseUuid: string -> Option<U>)
    : Result<Principal<U>, AppError>
  {
    var principal :- match known
                     case Some(p) => Ok(p)
                     case None =>
                       match FromHeaders(headers, parseUuid)
                       case Err(e) => Err(e)
                       case Ok(None) => Err(Unauthorized("principal is required"))
                       case Ok(Some(p)) => Ok(p);
    if IsSatisfiedBy(required, principal) then Ok(principal)
    else Err(Forbidden("missing required permission"))
  }

  /** With headers alone a request gets through exactly when the permissions header is text that
      names every required permission, and the user id header is absent or a UUID. */
  lemma EnforceDecides<U>(required: seq<string>, headers: HeaderMap, parseUuid: string -> Option<U>)
    ensures Enforce(required, None, headers, parseUuid).Ok?
            <==> && PERMISSIONS_HEADER in headers
                 && headers[PERMISSIONS_HEADER].Visible?
                 && Elements(required) <= Elements(ParsePermissions(headers[PERMISSIONS_HEADER].text))
                 && (USER_ID_HEADER in headers ==>
                       headers[USER_ID_HEADER].Visible? && parseUuid(headers[USER_ID_HEADER].text).Some?)
  {
    if PERMISSIONS_HEADER in headers && headers[PERMISSIONS_HEADER].Visible? {
      var list := ParsePermissions(headers[PERMISSIONS_HEADER].text);
      SatisfiedIsInclusion<U>(required, None, list);
      if USER_ID_HEADER in headers && headers[USER_ID_HEADER].Visible? {
        SatisfiedIsInclusion(required, parseUuid(headers[USER_ID_HEADER].text), list);
      }
    }
  }

  /** The permissions of a header are the trimmed, non-empty texts between its commas. */
  lemma ParsedPermissions(value: string, s: string)
    ensures s in ParsePermissions(value) <==> s != "" && exists part :: part in Split(value, ',') && Trim(part) == s
  {
    PartsAreClean(Split(value, ','));
  }

  /** Who gets through on headers alone carries the user of the user id header, if it is sent, and
      exactly the permissions of the permissions header, in order and each once. */
  lemma EnforcedPrincipal<U>(required: seq<string>, headers: HeaderMap, parseUuid: string -> Option<U>, p: Principal<U>)
    requires Enforce(required, None, headers, parseUuid) == Ok(p)
    ensures p.userId == if "x-user-id" in headers then parseUuid(headers["x-user-id"].text) else None
    ensures Increasing(p.permissions)
    ensures Elements(p.permissions) == Elements(ParsePermissions(headers["x-permissions"].text))
  {
    SortUniqueIsCanonical(ParsePermissions(headers["x-permissions"].text));
  }

  /** A principal that an earlier layer has left is taken as it is, whatever the headers. */
  lemma KnownPrincipalIsTaken<U>(required: seq<string>, known: Principal<U>, headers: HeaderMap, parseUuid: string -> Option<U>)
    ensures Enforce(required, Some(known), headers, parseUuid)
            == if IsSatisfiedBy(required, known) then Ok(known) else Err(Forbidden("missing required permission"))
  {
  }

  /** Why a request is turned away: without a permissions header it is unauthorised; with headers that
      cannot be read it is a bad request; with readable ones it is forbidden. */
  lemma EnforceErrors<U>(required: seq<string>, headers: HeaderMap, parseUuid: string -> Option<U>)
    requires Enforce(required, None, headers, parseUuid).Err?
    ensures var e := Enforce(required, None, headers, parseUuid).error;
            && (e.Unauthorized? <==> "x-permissions" !in headers)
            && (e == BadRequest("permissions header is invalid")
                <==> "x-permissions" in headers && headers["x-permissions"].Raw?)
            && (e == BadRequest("user id header is invalid")
                <==> && "x-permissions" in headers && headers["x-permissions"].Visible? && "x-user-id" in headers
                     && (headers["x-user-id"].Raw? || parseUuid(headers["x-user-id"].text).None?))
            && (e.Unauthorized? || e.BadRequest? || e.Forbidden?)
  {
  }
}
