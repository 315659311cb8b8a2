/**
 The tables of tenants and their domains, the changes the database lets through, and the
 resolution of a request to a tenant.
 */
module Tenants {
  import opened Wrappers
  import opened Headers
  import opened Hosts
  import opened Platform

  datatype Tenant = Tenant(slug: string, status: string, deleted: bool)

  datatype DomainRow = DomainRow(tenantId: Uuid, domain: string, isPrimary: bool, deleted: bool)

  datatype Db = Db(tenants: map<Uuid, Tenant>, domains: map<Uuid, DomainRow>)

  /** SQL's lower(), which depends on the database's collation. */
  type SqlLower = string -> string

  // ----- Constraints ---------------------------------------------------------------------------------

  predicate StatusValid(status: string) {
    status == "provisioning" || status == "active" || status == "suspended" || status == "deleted"
  }

  predicate NotBlank(s: string) {
    exists i :: 0 <= i < |s| && s[i] != ' '
  }

  predicate LiveDomain(db: Db, d: Uuid) {
    d in db.domains && !db.domains[d].deleted
  }

  predicate LiveTenant(db: Db, t: Uuid) {
    t in db.tenants && !db.tenants[t].deleted
  }

  /** tenant_domains_domain_active_idx */
  ghost predicate DomainsUnique(lower: SqlLower, db: Db) {
    forall a, b | LiveDomain(db, a) && LiveDomain(db, b) ::
      lower(db.domains[a].domain) == lower(db.domains[b].domain) ==> a == b
  }

  /** tenant_domains_primary_active_idx */
  ghost predicate PrimariesUnique(db: Db) {
    forall a, b | LiveDomain(db, a) && LiveDomain(db, b) ::
      db.domains[a].isPrimary && db.domains[b].isPrimary && db.domains[a].tenantId == db.domains[b].tenantId ==> a == b
  }

  /** tenants_slug_active_idx */
  ghost predicate SlugsUnique(lower: SqlLower, db: Db) {
    forall a, b | LiveTenant(db, a) && LiveTenant(db, b) ::
      lower(db.tenants[a].slug) == lower(db.tenants[b].slug) ==> a == b
  }

  /** The foreign key of tenant_domains. */
  ghost predicate DomainsHaveTenants(db: Db) {
    forall a :: a in db.domains ==> db.domains[a].tenantId in db.tenants
  }

  ghost predicate StatusesValid(db: Db) {
    forall a :: a in db.tenants ==> StatusValid(db.tenants[a].status)
  }

  ghost predicate NamesNotBlank(db: Db) {
    && (forall t :: t in db.tenants ==> NotBlank(db.tenants[t].slug))
    && (forall d :: d in db.domains ==> NotBlank(db.domains[d].domain))
  }

  ghost predicate Constraints(lower: SqlLower, db: Db) {
    && DomainsUnique(lower, db)
    && PrimariesUnique(db)
    && SlugsUnique(lower, db)
    && DomainsHaveTenants(db)
    && StatusesValid(db)
    && NamesNotBlank(db)
  }

  // ----- Changes ---------------------------------------------------------------------------------------

  /** One statement.  A put inserts or updates a row; a soft delete is a put of a deleted row. */
  datatype Change =
    | PutTenant(id: Uuid, tenant: Tenant)
    | PutDomain(id: Uuid, row: DomainRow)
    | DropTenant(id: Uuid)
    | DropDomain(id: Uuid)

  /** The database compares the changed row with the others through the indexes. */
  ghost predicate Accepted(lower: SqlLower, db: Db, change: Change) {
    match change
    case PutTenant(id, tenant) =>
      && NotBlank(tenant.slug)
      && StatusValid(tenant.status)
      && (!tenant.deleted ==>
            forall o | LiveTenant(db, o) && o != id ::
              lower(db.tenants[o].slug) != lower(tenant.slug))
    case PutDomain(id, row) =>
      && NotBlank(row.domain)
      && row.tenantId in db.tenants
      && (!row.deleted ==>
            forall o | LiveDomain(db, o) && o != id ::
              && lower(db.domains[o].domain) != lower(row.domain)
              && !(row.isPrimary && db.domains[o].isPrimary && db.domains[o].tenantId == row.tenantId))
    case DropTenant(_) => true
    case DropDomain(_) => true
  }

  /** What a statement writes; dropping a tenant drops its domains. */
  function Execute(db: Db, change: Change): Db {
    match change
    case PutTenant(id, tenant) => db.(tenants := db.tenants[id := tenant])
    case PutDomain(id, row) => db.(domains := db.domains[id := row])
    case DropTenant(id) =>
      Db(db.tenants - {id}, map d | d in db.domains && db.domains[d].tenantId != id :: db.domains[d])
    case DropDomain(id) => db.(domains := db.domains - {id})
  }

  /** A rejected statement changes nothing. */
  ghost function Apply(lower: SqlLower, db: Db, change: Change): Db {
    if Accepted(lower, db, change) then Execute(db, change) else db
  }

  ghost function ApplyAll(lower: SqlLower, db: Db, changes: seq<Change>): Db {
    if changes == [] then db
    else Apply(lower, ApplyAll(lower, db, changes[..|changes| - 1]), changes[|changes| - 1])
  }

  /** A statement leaves alone the rows that it does not name and that do not belong to a tenant it
      drops, and puts there exactly the row it names. */
  lemma OtherRowsStay(db: Db, change: Change, id: Uuid)
    ensures var tenants := Execute(db, change).tenants;
            if change.PutTenant? && change.id == id then id in tenants && tenants[id] == change.tenant
            else if change.DropTenant? && change.id == id then id !in tenants
            else (id in tenants <==> id in db.tenants) && (id in db.tenants ==> tenants[id] == db.tenants[id])
    ensures var domains := Execute(db, change).domains;
            if change.PutDomain? && change.id == id then id in domains && domains[id] == change.row
            else if change.DropDomain? && change.id == id then id !in domains
            else if change.DropTenant? && id in db.domains && db.domains[id].tenantId == change.id then id !in domains
            else (id in domains <==> id in db.domains) && (id in db.domains ==> domains[id] == db.domains[id])
  {
  }

  lemma PutDomainKeepsConstraints(lower: SqlLower, db: Db, id: Uuid, row: DomainRow)
    requires Constraints(lower, db) && Accepted(lower, db, PutDomain(id, row))
    ensures Constraints(lower, db.(domains := db.domains[id := row]))
  {
    hide NotBlank, StatusValid;
    var db' := db.(domains := db.domains[id := row]);
    forall a, b | LiveDomain(db', a) && LiveDomain(db', b)
                  && lower(db'.domains[a].domain) == lower(db'.domains[b].domain)
      ensures a == b
    {
      assert a != id ==> LiveDomain(db, a);
      assert b != id ==> LiveDomain(db, b);
    }
    forall a, b | LiveDomain(db', a) && LiveDomain(db', b)
                  && db'.domains[a].isPrimary && db'.domains[b].isPrimary
                  && db'.domains[a].tenantId == db'.domains[b].tenantId
      ensures a == b
    {
      assert a != id ==> LiveDomain(db, a);
      assert b != id ==> LiveDomain(db, b);
    }
  }

  lemma PutTenantKeepsConstraints(lower: SqlLower, db: Db, id: Uuid, tenant: Tenant)
    requires Constraints(lower, db) && Accepted(lower, db, PutTenant(id, tenant))
    ensures Constraints(lower, db.(tenants := db.tenants[id := tenant]))
  {
    hide NotBlank, StatusValid;
    var db' := db.(tenants := db.tenants[id := tenant]);
    forall a, b | LiveTenant(db', a) && LiveTenant(db', b)
                  && lower(db'.tenants[a].slug) == lower(db'.tenants[b].slug)
      ensures a == b
    {
      assert a != id ==> LiveTenant(db, a);
      assert b != id ==> LiveTenant(db, b);
    }
  }

  lemma FewerRowsKeepConstraints(lower: SqlLower, db: Db, db': Db)
    requires Constraints(lower, db) && DomainsHaveTenants(db')
    requires db'.tenants.Keys <= db.tenants.Keys && forall t :: t in db'.tenants ==> db'.tenants[t] == db.tenants[t]
    requires db'.domains.Keys <= db.domains.Keys && forall d :: d in db'.domains ==> db'.domains[d] == db.domains[d]
    ensures Constraints(lower, db')
  {
    assert forall d :: LiveDomain(db', d) ==> LiveDomain(db, d);
    assert forall t :: LiveTenant(db', t) ==> LiveTenant(db, t);
  }

  lemma PutTenantIsAccepted(lower: SqlLower, db: Db, id: Uuid, tenant: Tenant)
    requires Constraints(lower, Execute(db, PutTenant(id, tenant)))
    ensures Accepted(lower, db, PutTenant(id, tenant))
  {
    hide NotBlank, StatusValid;
    var db' := Execute(db, PutTenant(id, tenant));
    assert db'.tenants[id] == tenant;
    forall o | LiveTenant(db, o) && o != id && !tenant.deleted
      ensures lower(db.tenants[o].slug) != lower(tenant.slug)
    {
      assert LiveTenant(db', o) && LiveTenant(db', id);
    }
  }

  lemma PutDomainIsAccepted(lower: SqlLower, db: Db, id: Uuid, row: DomainRow)
    requires Constraints(lower, Execute(db, PutDomain(id, row)))
    ensures Accepted(lower, db, PutDomain(id, row))
  {
    hide NotBlank, StatusValid;
    var db' := Execute(db, PutDomain(id, row));
    assert db'.domains[id] == row;
    forall o | LiveDomain(db, o) && o != id && !row.deleted
      ensures lower(db.domains[o].domain) != lower(row.domain)
      ensures !(row.isPrimary && db.domains[o].isPrimary && db.domains[o].tenantId == row.tenantId)
    {
      assert LiveDomain(db', o) && LiveDomain(db', id);
    }
  }

  /** The database lets a statement through exactly when what it writes meets the constraints. */
  lemma AcceptedIffConstraintsKept(lower: SqlLower, db: Db, change: Change)
    requires Constraints(lower, db)
    ensures Accepted(lower, db, change) <==> Constraints(lower, Execute(db, change))
  {
    hide DomainsUnique, PrimariesUnique, SlugsUnique, StatusesValid, NamesNotBlank;
    match change {
      case PutTenant(id, tenant) =>
        if Accepted(lower, db, change) {
          PutTenantKeepsConstraints(lower, db, id, tenant);
        }
        if Constraints(lower, Execute(db, change)) {
          PutTenantIsAccepted(lower, db, id, tenant);
        }
      case PutDomain(id, row) =>
        if Accepted(lower, db, change) {
          PutDomainKeepsConstraints(lower, db, id, row);
        }
        if Constraints(lower, Execute(db, change)) {
          PutDomainIsAccepted(lower, db, id, row);
        }
      case _ =>
        FewerRowsKeepConstraints(lower, db, Execute(db, change));
    }
  }

  /** Every state that any sequence of statements reaches from empty tables meets the constraints. */
  lemma {:induction false} ReachedMeetsConstraints(lower: SqlLower, changes: seq<Change>)
    ensures Constraints(lower, ApplyAll(lower, Db(map[], map[]), changes))
  {
    if changes != [] {
      hide Constraints, Accepted, Execute;
      ReachedMeetsConstraints(lower, changes[..|changes| - 1]);
      AcceptedIffConstraintsKept(lower, ApplyAll(lower, Db(map[], map[]), changes[..|changes| - 1]), changes[|changes| - 1]);
    } else {
      assert Constraints(lower, Db(map[], map[]));
    }
  }

  // ----- Resolution ---------------------------------------------------------------------------------------

  datatype Target = ById(id: Uuid) | ByHost(host: string)

  datatype ResolutionSource = FromHeader | FromHost

  datatype TenantStatus = Provisioning | Active | Suspended | Deleted

  /** `TenantStatus::from_db` */
  function FromDb(value: string): Option<TenantStatus> {
    match value
    case "provisioning" => Some(Provisioning)
    case "active" => Some(Active)
    case "suspended" => Some(Suspended)
    case "deleted" => Some(Deleted)
    case _ => None
  }

  /** `TenantStatus::as_str` */
  function AsStr(status: TenantStatus): string {
    match status
    case Provisioning => "provisioning"
    case Active => "active"
    case Suspended => "suspended"
    case Deleted => "deleted"
  }

  /** Reading and writing a status undo each other, and the schema and the program know the same ones. */
  lemma StatusRoundTrip(value: string, status: TenantStatus)
    ensures FromDb(value) == Some(status) <==> AsStr(status) == value
    ensures FromDb(value).Some? <==> StatusValid(value)
    ensures FromDb("provisioning") == Some(Provisioning) && FromDb("active") == Some(Active)
    ensures FromDb("suspended") == Some(Suspended) && FromDb("deleted") == Some(Deleted)
  {
  }

  datatype TenantContext = TenantContext(id: Uuid, slug: string, status: TenantStatus, source: ResolutionSource)

  type ParseUuid = string -> Option<Uuid>

  /** `TenantLookupTarget::from_headers` */
  function TargetOf(headers: HeaderMap, parseUuid: ParseUuid): Result<Target, AppError> {
    match Get(headers, TENANT_ID_HEADER)
    case Some(Raw) => Err(BadRequest("tenant id header is invalid"))
    case Some(Visible(text)) =>
      (match parseUuid(text)
       case None => Err(BadRequest("tenant id header is invalid"))
       case Some(id) => Ok(ById(id)))
    case None =>
      var host := match Get(headers, HOST_HEADER)
                  case Some(Visible(text)) => NormalizeHost(text)
                  case _ => None;
      match host
      case Some(h) => Ok(ByHost(h))
      case None => Err(BadRequest("tenant identifier missing"))
  }

  /** The rows of the join that match a host: the domains that are live and of a live tenant. */
  ghost function RowsForHost(lower: SqlLower, db: Db, host: string): set<Uuid> {
    set d | && d in db.domains
            && LiveDomain(db, d)
            && lower(db.domains[d].domain) == lower(host)
            && LiveTenant(db, db.domains[d].tenantId)
  }

  /** Which matching row the database returns first is up to it. */
  ghost predicate Picks(first: set<Uuid> -> Uuid) {
    forall rows: set<Uuid> :: rows != {} ==> first(rows) in rows
  }

  ghost function FindTenant(lower: SqlLower, db: Db, first: set<Uuid> -> Uuid, target: Target): Option<Uuid>
    requires Picks(first)
  {
    match target
    case ById(id) => if LiveTenant(db, id) then Some(id) else None
    case ByHost(host) =>
      var rows := RowsForHost(lower, db, host);
      if rows == {} then None
      else
        var d := first(rows);
        assert d in rows;
        Some(db.domains[d].tenantId)
  }

  /** `TenantResolver::resolve` */
  ghost function Resolve(
    lower: SqlLower, db: Db, first: set<Uuid> -> Uuid, parseUuid: ParseUuid, headers: HeaderMap)
    : Result<TenantContext, AppError>
    requires Picks(first)
  {
    match TargetOf(headers, parseUuid)
    case Err(e) => Err(e)
    case Ok(target) =>
      match FindTenant(lower, db, first, target)
      case None => Err(NotFound("tenant not found"))
      case Some(id) =>
        var status := if id in db.tenants then FromDb(db.tenants[id].status) else None;
        if status.None? then Err(Internal("tenant has invalid status"))
        else if status != Some(Active) then Err(Forbidden("tenant is not active"))
        else Ok(TenantContext(id, db.tenants[id].slug, Active, if target.ById? then FromHeader else FromHost))
  }

  /** At most one row matches a host in any reached state. */
  lemma HostMatchesAtMostOneRow(lower: SqlLower, changes: seq<Change>, host: string, a: Uuid, b: Uuid)
    requires a in RowsForHost(lower, ApplyAll(lower, Db(map[], map[]), changes), host)
    requires b in RowsForHost(lower, ApplyAll(lower, Db(map[], map[]), changes), host)
    ensures a == b
  {
    ReachedMeetsConstraints(lower, changes);
  }

  /** So resolution is a function of the tables and the headers: whichever row the database would
      return first, the answer is the same. */
  lemma ResolutionIsAFunction(
    lower: SqlLower, changes: seq<Change>, first: set<Uuid> -> Uuid, other: set<Uuid> -> Uuid,
    parseUuid: ParseUuid, headers: HeaderMap)
    requires Picks(first) && Picks(other)
    ensures var db := ApplyAll(lower, Db(map[], map[]), changes);
            Resolve(lower, db, first, parseUuid, headers) == Resolve(lower, db, other, parseUuid, headers)
  {
    var db := ApplyAll(lower, Db(map[], map[]), changes);
    match TargetOf(headers, parseUuid) {
      case Ok(ByHost(host)) =>
        var rows := RowsForHost(lower, db, host);
        if rows != {} {
          assert first(rows) in rows && other(rows) in rows;
          HostMatchesAtMostOneRow(lower, changes, host, first(rows), other(rows));
        }
      case _ =>
    }
  }

  /** The tenant a target names: undeleted, and for a host with a live domain of that name. */
  ghost predicate Names(lower: SqlLower, db: Db, target: Target, id: Uuid) {
    && LiveTenant(db, id)
    && (target.ByHost? ==>
          exists d :: LiveDomain(db, d) && db.domains[d].tenantId == id
                      && lower(db.domains[d].domain) == lower(target.host))
    && (target.ById? ==> target.id == id)
  }

  /** In every reached state the lookup finds exactly the tenant that a target names. */
  lemma FindsTheNamed(lower: SqlLower, changes: seq<Change>, first: set<Uuid> -> Uuid, target: Target, id: Uuid)
    requires Picks(first)
    ensures var db := ApplyAll(lower, Db(map[], map[]), changes);
            FindTenant(lower, db, first, target) == Some(id) <==> Names(lower, db, target, id)
  {
    var db := ApplyAll(lower, Db(map[], map[]), changes);
    if target.ByHost? {
      var rows := RowsForHost(lower, db, target.host);
      if rows != {} {
        assert first(rows) in rows;
      }
      if Names(lower, db, target, id) {
        var d :| LiveDomain(db, d) && db.domains[d].tenantId == id
                 && lower(db.domains[d].domain) == lower(target.host);
        assert d in rows;
        HostMatchesAtMostOneRow(lower, changes, target.host, first(rows), d);
      }
    }
  }

  /** In every reached state a request is resolved to a tenant exactly when its headers give a
      target that names it and it is active; then the context carries that tenant. */
  lemma ResolvesExactlyActiveTenants(
    lower: SqlLower, changes: seq<Change>, first: set<Uuid> -> Uuid, parseUuid: ParseUuid, headers: HeaderMap, id: Uuid)
    requires Picks(first)
    ensures var db := ApplyAll(lower, Db(map[], map[]), changes);
            var r := Resolve(lower, db, first, parseUuid, headers);
            && (r.Ok? && r.value.id == id
                <==> && TargetOf(headers, parseUuid).Ok?
                     && Names(lower, db, TargetOf(headers, parseUuid).value, id)
                     && db.tenants[id].status == "active")
            && (r.Ok? ==>
                  && r.value.id in db.tenants
                  && r.value.slug == db.tenants[r.value.id].slug
                  && r.value.status == Active
                  && (r.value.source == FromHeader <==> "x-tenant-id" in headers))
            && !(r.Err? && r.error.Internal?)
  {
    hide FindTenant, Names, Constraints, ApplyAll;
    var db := ApplyAll(lower, Db(map[], map[]), changes);
    if TargetOf(headers, parseUuid).Ok? {
      var target := TargetOf(headers, parseUuid).value;
      var found := FindTenant(lower, db, first, target);
      FindsTheNamed(lower, changes, first, target, id);
      if found.Some? {
        FindsTheNamed(lower, changes, first, target, found.value);
        NamedIsValid(lower, changes, target, found.value);
      }
    }
  }

  lemma NamedIsValid(lower: SqlLower, changes: seq<Change>, target: Target, id: Uuid)
    requires Names(lower, ApplyAll(lower, Db(map[], map[]), changes), target, id)
    ensures var db := ApplyAll(lower, Db(map[], map[]), changes);
            id in db.tenants && FromDb(db.tenants[id].status).Some?
  {
    ReachedMeetsConstraints(lower, changes);
  }

  /** Why a request is turned away in a reached state: its headers give no target, or no tenant is
      named by the target, or one is that is not active. */
  lemma ResolveErrors(
    lower: SqlLower, changes: seq<Change>, first: set<Uuid> -> Uuid, parseUuid: ParseUuid, headers: HeaderMap, e: AppError)
    requires Picks(first)
    requires Resolve(lower, ApplyAll(lower, Db(map[], map[]), changes), first, parseUuid, headers) == Err(e)
    ensures var db := ApplyAll(lower, Db(map[], map[]), changes);
            match TargetOf(headers, parseUuid)
            case Err(cause) => e == cause
            case Ok(target) =>
              || (e == NotFound("tenant not found") && forall id :: !Names(lower, db, target, id))
              || (e == Forbidden("tenant is not active")
                  && exists id :: Names(lower, db, target, id) && db.tenants[id].status != "active")
  {
    hide FindTenant, Names, ApplyAll;
    var db := ApplyAll(lower, Db(map[], map[]), changes);
    if TargetOf(headers, parseUuid).Ok? {
      var target := TargetOf(headers, parseUuid).value;
      var found := FindTenant(lower, db, first, target);
      forall id ensures found == Some(id) <==> Names(lower, db, target, id) {
        FindsTheNamed(lower, changes, first, target, id);
      }
      if found.Some? {
        NamedIsValid(lower, changes, target, found.value);
        assert Names(lower, db, target, found.value);
      }
    }
  }

  /** A tenant id header decides alone, and if it is not a UUID the request is rejected; without one
      the Host header decides. */
  lemma TargetsAreRead(headers: HeaderMap, parseUuid: ParseUuid)
    ensures forall id :: TargetOf(headers, parseUuid) == Ok(ById(id))
              <==> "x-tenant-id" in headers && headers["x-tenant-id"].Visible? && parseUuid(headers["x-tenant-id"].text) == Some(id)
    ensures forall host :: TargetOf(headers, parseUuid) == Ok(ByHost(host))
              <==> && "x-tenant-id" !in headers
                   && "host" in headers && headers["host"].Visible? && NormalizeHost(headers["host"].text) == Some(host)
    ensures TargetOf(headers, parseUuid).Err? ==>
              TargetOf(headers, parseUuid).error
              == BadRequest(if "x-tenant-id" in headers then "tenant id header is invalid" else "tenant identifier missing")
  {
    hide NormalizeHost;
  }

  /** A live domain that the database accepts makes its host resolve to its tenant. */
  lemma AddedDomainResolves(
    lower: SqlLower, changes: seq<Change>, first: set<Uuid> -> Uuid, parseUuid: ParseUuid, headers: HeaderMap,
    d: Uuid, row: DomainRow)
    requires Picks(first) && TargetOf(headers, parseUuid).Ok? && TargetOf(headers, parseUuid).value.ByHost?
    requires var db := ApplyAll(lower, Db(map[], map[]), changes);
             && Accepted(lower, db, PutDomain(d, row))
             && !row.deleted
             && LiveTenant(db, row.tenantId)
             && db.tenants[row.tenantId].status == "active"
    requires lower(TargetOf(headers, parseUuid).value.host) == lower(row.domain)
    ensures var db := ApplyAll(lower, Db(map[], map[]), changes + [PutDomain(d, row)]);
            Resolve(lower, db, first, parseUuid, headers)
            == Ok(TenantContext(row.tenantId, db.tenants[row.tenantId].slug, Active, FromHost))
  {
    var changes' := changes + [PutDomain(d, row)];
    assert changes'[..|changes|] == changes;
    var db := ApplyAll(lower, Db(map[], map[]), changes');
    assert LiveDomain(db, d) && db.domains[d] == row;
    ResolvesExactlyActiveTenants(lower, changes', first, parseUuid, headers, row.tenantId);
  }

  lemma {:induction false} ApplyAllConcat(lower: SqlLower, db: Db, a: seq<Change>, b: seq<Change>)
    ensures ApplyAll(lower, db, a + b) == ApplyAll(lower, ApplyAll(lower, db, a), b)
  {
    if b == [] {
      assert a + b == a;
    } else {
      var n := |b| - 1;
      ApplyAllConcat(lower, db, a, b[..n]);
      assert (a + b)[..|a| + n] == a + b[..n];
    }
  }

  /** The statement puts the tenant there undeleted. */
  predicate Restores(change: Change, id: Uuid) {
    change.PutTenant? && change.id == id && !change.tenant.deleted
  }

  lemma {:induction false} StaysRemoved(lower: SqlLower, db: Db, later: seq<Change>, id: Uuid)
    requires !LiveTenant(db, id) && forall i :: 0 <= i < |later| ==> !Restores(later[i], id)
    ensures !LiveTenant(ApplyAll(lower, db, later), id)
  {
    if later != [] {
      StaysRemoved(lower, db, later[..|later| - 1], id);
      assert !Restores(later[|later| - 1], id);
    }
  }

  /** Once a tenant is deleted, softly or for good, no request is resolved to it, whatever the
      statements after that, until one of them puts it there undeleted. */
  lemma RemovedTenantDoesNotResolve(
    lower: SqlLower, changes: seq<Change>, first: set<Uuid> -> Uuid, parseUuid: ParseUuid, headers: HeaderMap,
    id: Uuid, removal: Change, later: seq<Change>)
    requires Picks(first)
    requires removal == DropTenant(id) || (removal.PutTenant? && removal.id == id && removal.tenant.deleted)
    requires Accepted(lower, ApplyAll(lower, Db(map[], map[]), changes), removal)
    requires forall i :: 0 <= i < |later| ==> !Restores(later[i], id)
    ensures var db := ApplyAll(lower, Db(map[], map[]), changes + [removal] + later);
            var r := Resolve(lower, db, first, parseUuid, headers);
            r.Ok? ==> r.value.id != id
  {
    hide Resolve, TargetOf;
    var changes' := changes + [removal];
    assert changes'[..|changes|] == changes;
    ApplyAllConcat(lower, Db(map[], map[]), changes', later);
    StaysRemoved(lower, ApplyAll(lower, Db(map[], map[]), changes'), later, id);
    ResolvesExactlyActiveTenants(lower, changes' + later, first, parseUuid, headers, id);
  }

  /** No live domain has this name. */
  ghost predicate NoDomainFor(lower: SqlLower, db: Db, host: string) {
    forall a :: LiveDomain(db, a) ==> lower(db.domains[a].domain) != lower(host)
  }

  /** The statement puts a live domain of this name there. */
  predicate Serves(lower: SqlLower, change: Change, host: string) {
    change.PutDomain? && !change.row.deleted && lower(change.row.domain) == lower(host)
  }

  lemma {:induction false} StaysUnserved(lower: SqlLower, db: Db, later: seq<Change>, host: string)
    requires NoDomainFor(lower, db, host) && forall i :: 0 <= i < |later| ==> !Serves(lower, later[i], host)
    ensures NoDomainFor(lower, ApplyAll(lower, db, later), host)
  {
    if later != [] {
      var n := |later| - 1;
      StaysUnserved(lower, db, later[..n], host);
      var before := ApplyAll(lower, db, later[..n]);
      var after := Apply(lower, before, later[n]);
      assert !Serves(lower, later[n], host);
      forall a | LiveDomain(after, a) ensures lower(after.domains[a].domain) != lower(host) {
        OtherRowsStay(before, later[n], a);
        assert LiveDomain(before, a) || (later[n].PutDomain? && later[n].id == a);
      }
    }
  }

  lemma RemovedDomainIsGone(lower: SqlLower, db: Db, d: Uuid, removal: Change, host: string)
    requires Constraints(lower, db) && LiveDomain(db, d) && lower(db.domains[d].domain) == lower(host)
    requires removal == DropDomain(d) || (removal.PutDomain? && removal.id == d && removal.row.deleted)
    ensures NoDomainFor(lower, Execute(db, removal), host)
  {
    var after := Execute(db, removal);
    forall a | LiveDomain(after, a) ensures lower(after.domains[a].domain) != lower(host) {
      OtherRowsStay(db, removal, a);
      assert LiveDomain(db, a) && a != d;
    }
  }

  /** Once a host's domain is deleted, softly or for good, requests for the host find no tenant,
      whatever the statements after that, until one of them puts a live domain of that name there. */
  lemma RemovedDomainDoesNotResolve(
    lower: SqlLower, changes: seq<Change>, first: set<Uuid> -> Uuid, parseUuid: ParseUuid, headers: HeaderMap,
    d: Uuid, removal: Change, later: seq<Change>, host: string)
    requires Picks(first) && TargetOf(headers, parseUuid) == Ok(ByHost(host))
    requires removal == DropDomain(d) || (removal.PutDomain? && removal.id == d && removal.row.deleted)
    requires var db := ApplyAll(lower, Db(map[], map[]), changes);
             && LiveDomain(db, d) && lower(db.domains[d].domain) == lower(host)
             && Accepted(lower, db, removal)
    requires forall i :: 0 <= i < |later| ==> !Serves(lower, later[i], host)
    ensures Resolve(lower, ApplyAll(lower, Db(map[], map[]), changes + [removal] + later), first, parseUuid, headers)
            == Err(NotFound("tenant not found"))
  {
    hide TargetOf, Constraints, NoDomainFor, Accepted, Execute, LiveDomain;
    var changes' := changes + [removal];
    assert changes'[..|changes|] == changes;
    ReachedMeetsConstraints(lower, changes);
    RemovedDomainIsGone(lower, ApplyAll(lower, Db(map[], map[]), changes), d, removal, host);
    ApplyAllConcat(lower, Db(map[], map[]), changes', later);
    StaysUnserved(lower, ApplyAll(lower, Db(map[], map[]), changes'), later, host);
    UnservedIsNotFound(lower, ApplyAll(lower, Db(map[], map[]), changes' + later), first, host);
  }

  lemma UnservedIsNotFound(lower: SqlLower, db: Db, first: set<Uuid> -> Uuid, host: string)
    requires Picks(first) && NoDomainFor(lower, db, host)
    ensures FindTenant(lower, db, first, ByHost(host)) == None
  {
    assert RowsForHost(lower, db, host) == {};
  }

  /** Without a tenant id header, two spellings of a host name the same target exactly when they keep
      as many dots before a port; then they are resolved alike, in any state of the tables. */
  lemma SpellingsResolveAlike(
    lower: SqlLower, db: Db, first: set<Uuid> -> Uuid, parseUuid: ParseUuid,
    headers: HeaderMap, others: HeaderMap, host: string, v: Spelling, w: Spelling)
    requires Picks(first) && CanonicalHost(host) && Spells(v, host) && Spells(w, host)
    requires "x-tenant-id" !in headers && Get(headers, "host") == Some(Visible(Written(v)))
    requires "x-tenant-id" !in others && Get(others, "host") == Some(Visible(Written(w)))
    ensures TargetOf(headers, parseUuid) == Ok(ByHost(host + Dots(KeptDots(v))))
    ensures TargetOf(headers, parseUuid) == TargetOf(others, parseUuid) <==> KeptDots(v) == KeptDots(w)
    ensures KeptDots(v) == KeptDots(w) ==>
              Resolve(lower, db, first, parseUuid, headers) == Resolve(lower, db, first, parseUuid, others)
  {
    hide NormalizeHost, Written;
    SpellingNormalizes(v, host);
    SpellingNormalizes(w, host);
    assert |host + Dots(KeptDots(v))| == |host| + KeptDots(v);
    assert |host + Dots(KeptDots(w))| == |host| + KeptDots(w);
  }
}
