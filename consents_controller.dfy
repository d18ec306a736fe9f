/** `ConsentsController`: a patient reads and updates their own consent row. */
module ConsentsController {
  import opened Base
  import opened Guids
  import opened Entities
  import opened Store
  import opened Http
  import CurrentUser
  import Policies
  import AuditService
  import NotificationService

  datatype ConsentView = ConsentView(patientId: Guid, allowDoctors: bool, allowNurses: bool, updatedAt: Instant)

  datatype UpdateConsentRequest = UpdateConsentRequest(allowDoctors: bool, allowNurses: bool)

  const Resource: string := "consents/me"

  /** `GET api/consents/me` (PatientOnly). */
  method GetMyConsent(db: AppDb, ctx: CurrentUser.RequestContext, now: Instant) returns (r: Response<ConsentView>)
    requires Policies.PatientOnly(ctx.user)
    requires db.Valid() && db.pending == []
    modifies db
    ensures db.Valid()
    ensures CurrentUser.PatientId(ctx.user).None? ==> r == Forbid && db.tables == old(db.tables) && db.pending == []
    ensures CurrentUser.PatientId(ctx.user).Some? ==>
      var patientId := CurrentUser.PatientId(ctx.user).value;
      var entry := AuditService.NewEntry(Some(ctx), "CONSENT_READ", Resource, Some(patientId), now);
      match ConsentOf(old(db.tables), patientId)
      case None => r == NotFound && db.tables == old(db.tables) && db.pending == []
      case Some(c) =>
        if AuditFits(entry)
        then r == Ok(ConsentView(c.patientId, c.allowDoctors, c.allowNurses, c.updatedAt)) && db.pending == []
             && db.tables == old(db.tables).(auditLogs := old(db.tables.auditLogs) + [entry])
        else r == Fault(SaveFailed(ConstraintViolation)) && db.tables == old(db.tables)
  {
    var patientId := CurrentUser.PatientId(ctx.user);
    if patientId.None? {
      return Forbid;
    }
    var consent := ConsentOf(db.tables, patientId.value);
    if consent.None? {
      return NotFound;
    }
    var logged := AuditService.LogAsync(db, Some(ctx), "CONSENT_READ", Resource, Some(patientId.value), now);
    if logged.Failure? {
      return Fault(SaveFailed(logged.error));
    }
    var c := consent.value;
    r := Ok(ConsentView(c.patientId, c.allowDoctors, c.allowNurses, c.updatedAt));
  }

  /** The row `UpdateMyConsent` saves: both flags as requested and the update time, on the
      caller's own row. */
  function Updated(c: Consent, request: UpdateConsentRequest, now: Instant): (u: Consent)
    ensures u.id == c.id && u.patientId == c.patientId
    ensures u.allowDoctors == request.allowDoctors && u.allowNurses == request.allowNurses && u.updatedAt == now
  {
    c.(allowDoctors := request.allowDoctors, allowNurses := request.allowNurses, updatedAt := now)
  }

  /** `PUT api/consents/me` (PatientOnly); `notificationId` is the new notification's id. */
  method UpdateMyConsent(db: AppDb, ctx: CurrentUser.RequestContext, request: UpdateConsentRequest,
                         notificationId: Guid, now: Instant) returns (r: Response<()>)
    requires Policies.PatientOnly(ctx.user)
    requires db.Valid() && db.pending == []
    requires !HasKey(db.tables.notifications, NotificationKey, notificationId)
    modifies db
    ensures db.Valid()
    ensures CurrentUser.PatientId(ctx.user).None? ==> r == Forbid && db.tables == old(db.tables) && db.pending == []
    ensures CurrentUser.PatientId(ctx.user).Some? ==>
      var patientId := CurrentUser.PatientId(ctx.user).value;
      match FindConsent(old(db.tables.consents), patientId)
      case None => r == NotFound && db.tables == old(db.tables) && db.pending == []
      case Some(i) =>
        var t1 := old(db.tables).(consents := old(db.tables.consents)[i := Updated(old(db.tables.consents)[i], request, now)]);
        var entry := AuditService.NewEntry(Some(ctx), "CONSENT_UPDATE", Resource, Some(patientId), now);
        var t2 := t1.(auditLogs := t1.auditLogs + [entry]);
        var n := NotificationService.ConsentChanged(notificationId, patientId, request.allowDoctors, request.allowNurses, now);
        if AuditFits(entry)
        then r == NoContent && db.pending == [] && db.tables == t2.(notifications := t2.notifications + [n])
        else r == Fault(SaveFailed(ConstraintViolation)) && db.tables == t1
  {
    var patientId := CurrentUser.PatientId(ctx.user);
    if patientId.None? {
      return Forbid;
    }
    var i := FindConsent(db.tables.consents, patientId.value);
    if i.None? {
      return NotFound;
    }
    r := SaveConsentUpdate(db, ctx, i.value, request, patientId.value, notificationId, now);
  }

  /** The part of `UpdateMyConsent` once the patient's row is found: the flags are saved,
      the change is logged and the patient is notified. */
  method SaveConsentUpdate(db: AppDb, ctx: CurrentUser.RequestContext, i: nat, request: UpdateConsentRequest,
                           patientId: Guid, notificationId: Guid, now: Instant) returns (r: Response<()>)
    requires db.Valid() && db.pending == []
    requires i < |db.tables.consents|
    requires !HasKey(db.tables.notifications, NotificationKey, notificationId)
    modifies db
    ensures db.Valid()
    ensures var t1 := old(db.tables).(consents := old(db.tables.consents)[i := Updated(old(db.tables.consents)[i], request, now)]);
      var entry := AuditService.NewEntry(Some(ctx), "CONSENT_UPDATE", Resource, Some(patientId), now);
      var t2 := t1.(auditLogs := t1.auditLogs + [entry]);
      var n := NotificationService.ConsentChanged(notificationId, patientId, request.allowDoctors, request.allowNurses, now);
      if AuditFits(entry)
      then r == NoContent && db.pending == [] && db.tables == t2.(notifications := t2.notifications + [n])
      else r == Fault(SaveFailed(ConstraintViolation)) && db.tables == t1
  {
    var consent := Updated(db.tables.consents[i], request, now);
    db.MarkModified(ConsentRow(consent));
    assert db.pending == [Entry(ConsentRow(consent), Modified)];
    SaveModifiedConsent(db.tables, i, consent);
    var saved := db.SaveChangesAsync();
    var logged := AuditService.LogAsync(db, Some(ctx), "CONSENT_UPDATE", Resource, Some(patientId), now);
    if logged.Failure? {
      return Fault(SaveFailed(logged.error));
    }
    NotificationService.NotifyConsentChanged(db, notificationId, patientId, request.allowDoctors, request.allowNurses, now);
    r := NoContent;
  }

  /** After an update the consent decision for the patient follows the new flags: the row the
      decision reads is the updated one. */
  lemma UpdateIsWhatTheGateReads(t: Tables, i: nat, request: UpdateConsentRequest, now: Instant)
    requires Constraints(t)
    requires i < |t.consents|
    ensures var c := Updated(t.consents[i], request, now);
      ConsentOf(t.(consents := t.consents[i := c]), c.patientId) == Some(c)
  {
    var c := Updated(t.consents[i], request, now);
    var t1 := t.(consents := t.consents[i := c]);
    assert ConsentPatientsDistinct(t1.consents);
    assert t1.consents[i] == c;
    ConsentOfUnique(t1, c.patientId, c);
  }
}
