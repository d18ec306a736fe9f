/** `PatientPortalController`: a patient's own view of their file. Every endpoint acts on the
    patient named by the caller's token and on no other; consent is not consulted. The HTML
    pages are represented by the values they are built from. */
module PatientPortalController {
  import opened Base
  import opened Guids
  import opened Entities
  import opened Store
  import opened Http
  import CurrentUser
  import Policies
  import FieldEncryption
  import AuditService
  import NotificationService
  import MedicalRecordsController

  type RecordView = MedicalRecordsController.RecordView

  /** What the prescription page shows. */
  datatype PrescriptionPage = PrescriptionPage(
    patient: Patient, record: MedicalRecord, diagnosis: string, prescriptions: string, clinicalNotes: string)

  /** What the all-records page shows: the patient and every record decrypted, newest first. */
  datatype RecordsPage = RecordsPage(patient: Patient, records: seq<RecordView>)

  /** `GET api/portal/records` (PatientOnly). */
  method MyRecords(db: AppDb, ctx: CurrentUser.RequestContext, c: FieldEncryption.FieldCipher, now: Instant)
    returns (r: Response<seq<RecordView>>)
    requires Policies.PatientOnly(ctx.user)
    requires db.Valid() && db.pending == []
    modifies db
    ensures db.Valid()
    ensures CurrentUser.PatientId(ctx.user).None? ==> r == Forbid && db.tables == old(db.tables) && db.pending == []
    ensures CurrentUser.PatientId(ctx.user).Some? ==>
      var patientId := CurrentUser.PatientId(ctx.user).value;
      var entry := AuditService.NewEntry(Some(ctx), "PORTAL_RECORD_READ", "portal/records", Some(patientId), now);
      match MedicalRecordsController.DecryptAll(c, MedicalRecordsController.PatientRecords(old(db.tables.records), patientId))
      case Failure(e) => r == Fault(DecryptFailed(e)) && db.tables == old(db.tables) && db.pending == []
      case Success(views) =>
        if AuditFits(entry)
        then r == Ok(views) && db.pending == [] && db.tables == old(db.tables).(auditLogs := old(db.tables.auditLogs) + [entry])
        else r == Fault(SaveFailed(ConstraintViolation)) && db.tables == old(db.tables)
  {
    var patientId := CurrentUser.PatientId(ctx.user);
    if patientId.None? {
      return Forbid;
    }
    var records := MedicalRecordsController.PatientRecords(db.tables.records, patientId.value);
    var response := MedicalRecordsController.DecryptAll(c, records);
    if response.Failure? {
      return Fault(DecryptFailed(response.error));
    }
    var logged := AuditService.LogAsync(db, Some(ctx), "PORTAL_RECORD_READ", "portal/records", Some(patientId.value), now);
    if logged.Failure? {
      return Fault(SaveFailed(logged.error));
    }
    r := Ok(response.value);
  }

  /** `GET api/portal/notifications` (PatientOnly): the caller's latest notifications. */
  function GetNotifications(t: Tables, user: CurrentUser.Principal): (r: Response<seq<Notification>>)
    requires Policies.PatientOnly(user)
    ensures r == Forbid <==> CurrentUser.PatientId(user).None?
    ensures r.Ok? ==> forall i :: 0 <= i < |r.body| ==> r.body[i].patientId == CurrentUser.PatientId(user).value
    ensures r.Ok? ==> r.body == NotificationService.GetAll(t.notifications, CurrentUser.PatientId(user).value, NotificationService.DefaultTake)
  {
    match CurrentUser.PatientId(user)
    case None => Forbid
    case Some(patientId) => Ok(NotificationService.GetAll(t.notifications, patientId, NotificationService.DefaultTake))
  }

  /** `GET api/portal/notifications/unread` (PatientOnly). */
  function GetUnreadNotifications(t: Tables, user: CurrentUser.Principal): (r: Response<seq<Notification>>)
    requires Policies.PatientOnly(user)
    ensures r == Forbid <==> CurrentUser.PatientId(user).None?
    ensures r.Ok? ==> forall i :: 0 <= i < |r.body| ==> r.body[i].patientId == CurrentUser.PatientId(user).value && !r.body[i].isRead
    ensures r.Ok? ==> r.body == NotificationService.GetUnread(t.notifications, CurrentUser.PatientId(user).value)
  {
    match CurrentUser.PatientId(user)
    case None => Forbid
    case Some(patientId) =>
      Ok(NotificationService.GetUnread(t.notifications, patientId))
  }

  /** `POST api/portal/notifications/{id}/read` (PatientOnly): only a notification of the
      caller's own patient can be marked. */
  method MarkAsRead(db: AppDb, ctx: CurrentUser.RequestContext, id: Guid) returns (r: Response<()>)
    requires Policies.PatientOnly(ctx.user)
    requires db.Valid() && db.pending == []
    modifies db
    ensures db.Valid() && db.pending == []
    ensures CurrentUser.PatientId(ctx.user).None? ==> r == Forbid && db.tables == old(db.tables)
    ensures CurrentUser.PatientId(ctx.user).Some? ==>
      && r == NoContent
      && db.tables == old(db.tables).(notifications :=
           NotificationService.MarkRead(old(db.tables.notifications), id, CurrentUser.PatientId(ctx.user).value))
  {
    var patientId := CurrentUser.PatientId(ctx.user);
    if patientId.None? {
      return Forbid;
    }
    NotificationService.MarkAsRead(db, id, patientId.value);
    r := NoContent;
  }

  /** `POST api/portal/notifications/read-all` (PatientOnly). */
  method MarkAllAsRead(db: AppDb, ctx: CurrentUser.RequestContext) returns (r: Response<()>)
    requires Policies.PatientOnly(ctx.user)
    requires db.Valid() && db.pending == []
    modifies db
    ensures db.Valid() && db.pending == []
    ensures CurrentUser.PatientId(ctx.user).None? ==> r == Forbid && db.tables == old(db.tables)
    ensures CurrentUser.PatientId(ctx.user).Some? ==>
      && r == NoContent
      && db.tables == old(db.tables).(notifications :=
           NotificationService.MarkAllRead(old(db.tables.notifications), CurrentUser.PatientId(ctx.user).value))
  {
    var patientId := CurrentUser.PatientId(ctx.user);
    if patientId.None? {
      return Forbid;
    }
    NotificationService.MarkAllAsRead(db, patientId.value);
    r := NoContent;
  }

  /** `MedicalRecords.FirstOrDefaultAsync(r => r.Id == recordId && r.PatientId == patientId)`. */
  function FindOwnRecord(records: seq<MedicalRecord>, recordId: Guid, patientId: Guid): (r: Option<MedicalRecord>)
    ensures r.Some? ==> r.value in records && r.value.id == recordId && r.value.patientId == patientId
    ensures r.None? <==> forall i :: 0 <= i < |records| ==> !(records[i].id == recordId && records[i].patientId == patientId)
  {
    if records == [] then None
    else if records[0].id == recordId && records[0].patientId == patientId then Some(records[0])
    else
      var r := FindOwnRecord(records[1..], recordId, patientId);
      assert forall i :: 1 <= i < |records| ==> records[i] == records[1..][i - 1];
      r
  }

  function PrescriptionResource(recordId: Guid): string {
    "portal/prescription/" + ToString(recordId) + "/download"
  }

  /** The prescription page of record `x`, or the first field that fails to decrypt. */
  function PrescriptionOf(c: FieldEncryption.FieldCipher, p: Patient, x: MedicalRecord): (r: Result<PrescriptionPage, FieldEncryption.CipherError>)
    ensures r.Success? <==> MedicalRecordsController.DecryptRecord(c, x).Success?
    ensures r.Success? ==>
      var v := MedicalRecordsController.DecryptRecord(c, x).value;
      r.value == PrescriptionPage(p, x, v.diagnosis, v.prescriptions, v.clinicalNotes)
  {
    match MedicalRecordsController.DecryptRecord(c, x)
    case Failure(e) => Failure(e)
    case Success(v) => Success(PrescriptionPage(p, x, v.diagnosis, v.prescriptions, v.clinicalNotes))
  }

  /** `GET api/portal/prescription/{recordId}/download` (PatientOnly): NotFound unless the record
      exists and is the caller's own, and the caller's patient exists. */
  method DownloadPrescription(db: AppDb, ctx: CurrentUser.RequestContext, c: FieldEncryption.FieldCipher,
                              recordId: Guid, now: Instant) returns (r: Response<PrescriptionPage>)
    requires Policies.PatientOnly(ctx.user)
    requires db.Valid() && db.pending == []
    modifies db
    ensures db.Valid()
    ensures CurrentUser.PatientId(ctx.user).None? ==> r == Forbid && db.tables == old(db.tables) && db.pending == []
    ensures CurrentUser.PatientId(ctx.user).Some? ==>
      var patientId := CurrentUser.PatientId(ctx.user).value;
      var patient := FindPatient(old(db.tables.patients), patientId);
      var record := FindOwnRecord(old(db.tables.records), recordId, patientId);
      var entry := AuditService.NewEntry(Some(ctx), "PRESCRIPTION_DOWNLOAD", PrescriptionResource(recordId), Some(patientId), now);
      if patient.None? || record.None? then r == NotFound && db.tables == old(db.tables) && db.pending == []
      else match PrescriptionOf(c, old(db.tables.patients)[patient.value], record.value)
        case Failure(e) => r == Fault(DecryptFailed(e)) && db.tables == old(db.tables) && db.pending == []
        case Success(page) =>
          if AuditFits(entry)
          then r == Ok(page) && db.pending == [] && db.tables == old(db.tables).(auditLogs := old(db.tables.auditLogs) + [entry])
          else r == Fault(SaveFailed(ConstraintViolation)) && db.tables == old(db.tables)
  {
    var patientId := CurrentUser.PatientId(ctx.user);
    if patientId.None? {
      return Forbid;
    }
    var patient := FindPatient(db.tables.patients, patientId.value);
    var record := FindOwnRecord(db.tables.records, recordId, patientId.value);
    if record.None? || patient.None? {
      return NotFound;
    }
    var page := PrescriptionOf(c, db.tables.patients[patient.value], record.value);
    if page.Failure? {
      return Fault(DecryptFailed(page.error));
    }
    var logged := AuditService.LogAsync(db, Some(ctx), "PRESCRIPTION_DOWNLOAD", PrescriptionResource(recordId), Some(patientId.value), now);
    if logged.Failure? {
      return Fault(SaveFailed(logged.error));
    }
    r := Ok(page.value);
  }

  /** `GET api/portal/records/download-all` (PatientOnly). */
  method DownloadAllRecords(db: AppDb, ctx: CurrentUser.RequestContext, c: FieldEncryption.FieldCipher, now: Instant)
    returns (r: Response<RecordsPage>)
    requires Policies.PatientOnly(ctx.user)
    requires db.Valid() && db.pending == []
    modifies db
    ensures db.Valid()
    ensures CurrentUser.PatientId(ctx.user).None? ==> r == Forbid && db.tables == old(db.tables) && db.pending == []
    ensures CurrentUser.PatientId(ctx.user).Some? ==>
      var patientId := CurrentUser.PatientId(ctx.user).value;
      var patient := FindPatient(old(db.tables.patients), patientId);
      var records := MedicalRecordsController.PatientRecords(old(db.tables.records), patientId);
      var entry := AuditService.NewEntry(Some(ctx), "RECORDS_DOWNLOAD_ALL", "portal/records/download-all", Some(patientId), now);
      if patient.None? then r == NotFound && db.tables == old(db.tables) && db.pending == []
      else match MedicalRecordsController.DecryptAll(c, records)
        case Failure(e) => r == Fault(DecryptFailed(e)) && db.tables == old(db.tables) && db.pending == []
        case Success(views) =>
          if AuditFits(entry)
          then r == Ok(RecordsPage(old(db.tables.patients)[patient.value], views)) && db.pending == []
               && db.tables == old(db.tables).(auditLogs := old(db.tables.auditLogs) + [entry])
          else r == Fault(SaveFailed(ConstraintViolation)) && db.tables == old(db.tables)
  {
    var patientId := CurrentUser.PatientId(ctx.user);
    if patientId.None? {
      return Forbid;
    }
    var patient := FindPatient(db.tables.patients, patientId.value);
    var records := MedicalRecordsController.PatientRecords(db.tables.records, patientId.value);
    if patient.None? {
      return NotFound;
    }
    var views := MedicalRecordsController.DecryptAll(c, records);
    if views.Failure? {
      return Fault(DecryptFailed(views.error));
    }
    var logged := AuditService.LogAsync(db, Some(ctx), "RECORDS_DOWNLOAD_ALL", "portal/records/download-all", Some(patientId.value), now);
    if logged.Failure? {
      return Fault(SaveFailed(logged.error));
    }
    r := Ok(RecordsPage(db.tables.patients[patient.value], views.value));
  }

  /** The portal shows a patient only their own records: every record a successful read
      returns is about the caller's patient. */
  lemma PortalShowsOnlyOwnRecords(c: FieldEncryption.FieldCipher, records: seq<MedicalRecord>, patientId: Guid,
                                  views: seq<RecordView>)
    requires MedicalRecordsController.DecryptAll(c, MedicalRecordsController.PatientRecords(records, patientId)) == Success(views)
    ensures forall i :: 0 <= i < |views| ==> views[i].patientId == patientId
  {
    var mine := MedicalRecordsController.PatientRecords(records, patientId);
    forall i | 0 <= i < |views| ensures views[i].patientId == patientId {
      assert MedicalRecordsController.DecryptRecord(c, mine[i]) == Success(views[i]);
      assert mine[i] in multiset(mine);
    }
  }
}
