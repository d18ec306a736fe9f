/** `AuditService.LogAsync`: one audit row per call, describing the caller of the current
    request, appended to the ledger through the append-only save. */
module AuditService {
  import opened Base
  import opened Text
  import opened Guids
  import opened Entities
  import opened Store
  import CurrentUser

  /** The remote address as text, or "" when there is no request or no address. */
  function IpAddressOf(ctx: Option<CurrentUser.RequestContext>): string {
    match ctx
    case Some(c) => c.remoteIp.GetOr("")
    case None => ""
  }

  /** The User-Agent header, or "" when there is no request. */
  function UserAgentOf(ctx: Option<CurrentUser.RequestContext>): string {
    match ctx
    case Some(c) => c.userAgent
    case None => ""
  }

  /** The row `LogAsync(action, resource, patientId)` builds at instant `now`. */
  function NewEntry(ctx: Option<CurrentUser.RequestContext>, action: string, resource: string,
                    patientId: Option<Guid>, now: Instant): AuditLog
  {
    var p := CurrentUser.PrincipalOf(ctx);
    AuditLog(
      CurrentUser.UserId(p),
      CurrentUser.Email(p).GetOr(""),
      Join(",", CurrentUser.Roles(p)),
      patientId,
      action,
      resource,
      now,
      IpAddressOf(ctx),
      UserAgentOf(ctx))
  }

  /** The ledger row names the caller's roles so that they can be read back: splitting
      `ActorRoles` at the commas gives the caller's de-duplicated roles, provided there is at
      least one and none contains a comma. */
  lemma RolesReadBack(ctx: Option<CurrentUser.RequestContext>, action: string, resource: string,
                      patientId: Option<Guid>, now: Instant)
    requires var roles := CurrentUser.Roles(CurrentUser.PrincipalOf(ctx));
      roles != [] && forall i :: 0 <= i < |roles| ==> ',' !in roles[i]
    ensures Split(NewEntry(ctx, action, resource, patientId, now).actorRoles, ',')
         == CurrentUser.Roles(CurrentUser.PrincipalOf(ctx))
  {
    SplitJoin(CurrentUser.Roles(CurrentUser.PrincipalOf(ctx)), ',');
  }

  /** An anonymous caller, or a request without context, is logged with no id, an empty
      email, empty roles, and an empty address and user agent. */
  lemma AnonymousEntry(action: string, resource: string, patientId: Option<Guid>, now: Instant)
    ensures NewEntry(None, action, resource, patientId, now)
         == AuditLog(None, "", "", patientId, action, resource, now, "", "")
  {
  }

  /** `LogAsync(action, resource, patientId)`: append the caller's entry and save. The save
      fails, adding nothing, only when a value is too long for its column; the entry then stays
      pending. */
  method LogAsync(db: AppDb, ctx: Option<CurrentUser.RequestContext>, action: string, resource: string,
                  patientId: Option<Guid>, now: Instant) returns (r: Result<(), SaveError>)
    requires db.Valid() && db.pending == []
    modifies db
    ensures db.Valid()
    ensures var entry := NewEntry(ctx, action, resource, patientId, now);
      if AuditFits(entry) then
        r == Success(()) && db.pending == []
        && db.tables == old(db.tables).(auditLogs := old(db.tables.auditLogs) + [entry])
      else
        r == Failure(ConstraintViolation) && db.tables == old(db.tables)
        && db.pending == [Entry(AuditRow(entry), Added)]
  {
    var entry := NewEntry(ctx, action, resource, patientId, now);
    db.Add(AuditRow(entry));
    assert db.pending == [Entry(AuditRow(entry), Added)];
    SaveAddedAudit(db.tables, entry);
    var saved := db.SaveChangesAsync();
    match saved
    case Success(_) => r := Success(());
    case Failure(e) => r := Failure(e);
  }
}
