/** `MedicalRecordsController`: doctors add records; clinical staff read a patient's records
    behind the consent gate; a doctor lists the patients they have written records for.

    Each action runs in one request with its own context: the saves of the record, of the audit
    entry and of the notification are separate commits, in that order, and an exception from
    a later one leaves the earlier ones in place.
 */
module MedicalRecordsController {
  import opened Base
  import opened Guids
  import opened Entities
  import opened Store
  import opened Http
  import Ordering
  import CurrentUser
  import Policies
  import AppRoles
  import FieldEncryption
  import ConsentService
  import AuditService
  import NotificationService

  datatype AddRecordRequest = AddRecordRequest(diagnosis: string, prescriptions: string, clinicalNotes: string)

  /** `MedicalRecordResponse`: a record with its fields decrypted. */
  datatype RecordView = RecordView(
    id: Guid, patientId: Guid, diagnosis: string, prescriptions: string, clinicalNotes: string,
    createdByUserId: Guid, createdAt: Instant)

  /** `$"records/{patientId}"`. */
  function Resource(patientId: Guid): string {
    "records/" + ToString(patientId)
  }

  // ---------------------------------------------------------------------------------------
  // Queries

  predicate NewerRecord(a: MedicalRecord, b: MedicalRecord) {
    a.createdAt >= b.createdAt
  }

  function OfPatient(patientId: Guid): MedicalRecord -> bool {
    (x: MedicalRecord) => x.patientId == patientId
  }

  /** `MedicalRecords.Where(x => x.PatientId == patientId).OrderByDescending(x => x.CreatedAtUtc)`:
      exactly the patient's records, newest first. */
  function PatientRecords(records: seq<MedicalRecord>, patientId: Guid): (r: seq<MedicalRecord>)
    ensures Ordering.SortedBy(r, NewerRecord)
    ensures forall x :: multiset(r)[x] == if x.patientId == patientId then multiset(records)[x] else 0
  {
    var mine := Ordering.Filter(records, OfPatient(patientId));
    assert Ordering.TotalPreorder(NewerRecord);
    Ordering.SortSorted(mine, NewerRecord);
    Ordering.Sort(mine, NewerRecord)
  }

  /** The projection to `MedicalRecordResponse`: the three fields are decrypted in the order
      the object initializer names them, and the first that fails throws. */
  function DecryptRecord(c: FieldEncryption.FieldCipher, x: MedicalRecord): (r: Result<RecordView, FieldEncryption.CipherError>)
    ensures r.Success? <==>
      && FieldEncryption.DecryptFromBase64(c, x.diagnosisEnc).Success?
      && FieldEncryption.DecryptFromBase64(c, x.prescriptionsEnc).Success?
      && FieldEncryption.DecryptFromBase64(c, x.clinicalNotesEnc).Success?
    ensures r.Success? ==>
      && r.value.id == x.id && r.value.patientId == x.patientId
      && r.value.createdByUserId == x.createdByUserId && r.value.createdAt == x.createdAt
  {
    match FieldEncryption.DecryptFromBase64(c, x.diagnosisEnc)
    case Failure(e) => Failure(e)
    case Success(diagnosis) =>
      match FieldEncryption.DecryptFromBase64(c, x.prescriptionsEnc)
      case Failure(e) => Failure(e)
      case Success(prescriptions) =>
        match FieldEncryption.DecryptFromBase64(c, x.clinicalNotesEnc)
        case Failure(e) => Failure(e)
        case Success(notes) =>
          Success(RecordView(x.id, x.patientId, diagnosis, prescriptions, notes, x.createdByUserId, x.createdAt))
  }

  /** `records.Select(...).ToList()`: every record decrypted, in order, or the first failure. */
  function DecryptAll(c: FieldEncryption.FieldCipher, xs: seq<MedicalRecord>): (r: Result<seq<RecordView>, FieldEncryption.CipherError>)
    ensures r.Success? <==> forall i :: 0 <= i < |xs| ==> DecryptRecord(c, xs[i]).Success?
    ensures r.Success? ==> |r.value| == |xs| && forall i :: 0 <= i < |xs| ==> DecryptRecord(c, xs[i]) == Success(r.value[i])
  {
    if xs == [] then Success([])
    else
      match DecryptRecord(c, xs[0])
      case Failure(e) => Failure(e)
      case Success(v) =>
        match DecryptAll(c, xs[1..])
        case Failure(e) =>
          DecryptedTail(c, xs, v, None);
          Failure(e)
        case Success(vs) =>
          DecryptedTail(c, xs, v, Some(vs));
          Success([v] + vs)
  }

  /** The step of `DecryptAll`: the first record's view in front of the rest's outcome. */
  lemma DecryptedTail(c: FieldEncryption.FieldCipher, xs: seq<MedicalRecord>, v: RecordView, rest: Option<seq<RecordView>>)
    requires xs != [] && DecryptRecord(c, xs[0]) == Success(v)
    requires rest.None? ==> exists i :: 0 <= i < |xs[1..]| && DecryptRecord(c, xs[1..][i]).Failure?
    requires rest.Some? ==> (|rest.value| == |xs[1..]| &&
      forall i :: 0 <= i < |xs[1..]| ==> DecryptRecord(c, xs[1..][i]) == Success(rest.value[i]))
    ensures rest.None? ==> exists i :: 0 <= i < |xs| && DecryptRecord(c, xs[i]).Failure?
    ensures rest.Some? ==> (|[v] + rest.value| == |xs| &&
      forall i :: 0 <= i < |xs| ==> DecryptRecord(c, xs[i]) == Success(([v] + rest.value)[i]))
  {
    if rest.None? {
      var i :| 0 <= i < |xs[1..]| && DecryptRecord(c, xs[1..][i]).Failure?;
      assert xs[i + 1] == xs[1..][i];
    } else {
      var all := [v] + rest.value;
      forall i | 0 <= i < |xs| ensures DecryptRecord(c, xs[i]) == Success(all[i]) {
        if i > 0 {
          assert xs[i] == xs[1..][i - 1] && all[i] == rest.value[i - 1];
        }
      }
    }
  }

  /** The record `Add` stores: each clinical field as the field cipher's output under its own
      nonce, written by the caller, at instant `now`. */
  function NewRecord(c: FieldEncryption.FieldCipher, userId: Guid, patientId: Guid, request: AddRecordRequest,
                     id: Guid, n1: FieldEncryption.Bytes, n2: FieldEncryption.Bytes, n3: FieldEncryption.Bytes,
                     now: Instant): MedicalRecord
  {
    MedicalRecord(id, patientId,
                  FieldEncryption.Sealed(c, request.diagnosis, n1),
                  FieldEncryption.Sealed(c, request.prescriptions, n2),
                  FieldEncryption.Sealed(c, request.clinicalNotes, n3),
                  userId, now)
  }

  /** A stored record reads back as the request that created it: the clinical fields are only
      ever kept encrypted, and decrypting them gives the submitted text. */
  lemma NewRecordReadsBack(c: FieldEncryption.FieldCipher, userId: Guid, patientId: Guid, request: AddRecordRequest,
                           id: Guid, n1: FieldEncryption.Bytes, n2: FieldEncryption.Bytes, n3: FieldEncryption.Bytes,
                           now: Instant)
    requires FieldEncryption.Lawful(c.prim)
    requires |n1| == FieldEncryption.NonceSize && |n2| == FieldEncryption.NonceSize && |n3| == FieldEncryption.NonceSize
    ensures DecryptRecord(c, NewRecord(c, userId, patientId, request, id, n1, n2, n3, now))
         == Success(RecordView(id, patientId, request.diagnosis, request.prescriptions, request.clinicalNotes, userId, now))
  {
    FieldEncryption.DecryptEncrypt(c, request.diagnosis, n1);
    FieldEncryption.DecryptEncrypt(c, request.prescriptions, n2);
    FieldEncryption.DecryptEncrypt(c, request.clinicalNotes, n3);
  }

  // ---------------------------------------------------------------------------------------
  // Add

  /** `POST api/records/{patientId}` (DoctorOnly). Each of `n1`, `n2`, `n3` is the nonce one
      encryption draws; `recordId` and `notificationId` are the new rows' ids. */
  method Add(db: AppDb, ctx: CurrentUser.RequestContext, c: FieldEncryption.FieldCipher, patientId: Guid,
             request: AddRecordRequest, recordId: Guid, notificationId: Guid,
             n1: FieldEncryption.Bytes, n2: FieldEncryption.Bytes, n3: FieldEncryption.Bytes, now: Instant)
    returns (r: Response<Guid>)
    requires Policies.DoctorOnly(ctx.user)
    requires db.Valid() && db.pending == []
    requires |n1| == FieldEncryption.NonceSize && |n2| == FieldEncryption.NonceSize && |n3| == FieldEncryption.NonceSize
    requires !HasKey(db.tables.records, RecordKey, recordId)
    requires !HasKey(db.tables.notifications, NotificationKey, notificationId)
    modifies db
    ensures db.Valid()
    ensures CurrentUser.UserId(ctx.user).None? ==> r == Forbid && db.tables == old(db.tables) && db.pending == []
    ensures CurrentUser.UserId(ctx.user).Some? && !HasKey(old(db.tables.patients), PatientKey, patientId) ==>
      r == NotFound && db.tables == old(db.tables) && db.pending == []
    ensures CurrentUser.UserId(ctx.user).Some? && HasKey(old(db.tables.patients), PatientKey, patientId) ==>
      var record := NewRecord(c, CurrentUser.UserId(ctx.user).value, patientId, request, recordId, n1, n2, n3, now);
      var t1 := old(db.tables).(records := old(db.tables.records) + [record]);
      var entry := AuditService.NewEntry(Some(ctx), "RECORD_ADD", Resource(patientId), Some(patientId), now);
      var t2 := t1.(auditLogs := t1.auditLogs + [entry]);
      var email := CurrentUser.Email(ctx.user).GetOr("Unknown");
      var n := NotificationService.RecordAdded(notificationId, patientId, recordId, email, now);
      if !AuditFits(entry) then r == Fault(SaveFailed(ConstraintViolation)) && db.tables == t1
      else if |email| > 256 then r == Fault(SaveFailed(ConstraintViolation)) && db.tables == t2
      else r == Created(recordId) && db.pending == [] && db.tables == t2.(notifications := t2.notifications + [n])
  {
    var userId := CurrentUser.UserId(ctx.user);
    if userId.None? {
      return Forbid;
    }
    if FindPatient(db.tables.patients, patientId).None? {
      return NotFound;
    }
    var diagnosis := FieldEncryption.EncryptToBase64(c, request.diagnosis, n1);
    var prescriptions := FieldEncryption.EncryptToBase64(c, request.prescriptions, n2);
    var notes := FieldEncryption.EncryptToBase64(c, request.clinicalNotes, n3);
    var record := MedicalRecord(recordId, patientId, diagnosis, prescriptions, notes, userId.value, now);
    assert record == NewRecord(c, userId.value, patientId, request, recordId, n1, n2, n3, now);
    ghost var t0 := db.tables;
    db.Add(RecordRow(record));
    assert db.pending == [Entry(RecordRow(record), Added)];
    SaveAddedRecord(db.tables, record);
    var saved := db.SaveChangesAsync();
    assert db.tables == t0.(records := t0.records + [record]) && db.pending == [];
    r := LogAndNotify(db, ctx, patientId, recordId, notificationId, now);
  }

  /** The tail of `Add` once the record is saved: the audit entry, then the patient's
      notification naming the caller's email (or "Unknown"). */
  method LogAndNotify(db: AppDb, ctx: CurrentUser.RequestContext, patientId: Guid, recordId: Guid,
                      notificationId: Guid, now: Instant) returns (r: Response<Guid>)
    requires db.Valid() && db.pending == []
    requires !HasKey(db.tables.notifications, NotificationKey, notificationId)
    modifies db
    ensures db.Valid()
    ensures var entry := AuditService.NewEntry(Some(ctx), "RECORD_ADD", Resource(patientId), Some(patientId), now);
      var t2 := old(db.tables).(auditLogs := old(db.tables.auditLogs) + [entry]);
      var email := CurrentUser.Email(ctx.user).GetOr("Unknown");
      var n := NotificationService.RecordAdded(notificationId, patientId, recordId, email, now);
      if !AuditFits(entry) then r == Fault(SaveFailed(ConstraintViolation)) && db.tables == old(db.tables)
      else if |email| > 256 then r == Fault(SaveFailed(ConstraintViolation)) && db.tables == t2
      else r == Created(recordId) && db.pending == [] && db.tables == t2.(notifications := t2.notifications + [n])
  {
    var logged := AuditService.LogAsync(db, Some(ctx), "RECORD_ADD", Resource(patientId), Some(patientId), now);
    if logged.Failure? {
      return Fault(SaveFailed(logged.error));
    }
    var email := CurrentUser.Email(ctx.user).GetOr("Unknown");
    var notified := NotificationService.NotifyRecordAdded(db, notificationId, patientId, recordId, email, now);
    if notified.Failure? {
      return Fault(SaveFailed(notified.error));
    }
    r := Created(recordId);
  }

  // ---------------------------------------------------------------------------------------
  // GetForPatient

  /** Whether the caller gets past the gate of `GetForPatient`: an Admin (any case) is not
      asked about consent; everyone else needs the consent decision. */
  predicate PassesGate(t: Tables, user: CurrentUser.Principal, userId: Guid, patientId: Guid) {
    CurrentUser.IsInRole(user, AppRoles.Admin)
    || ConsentService.CanClinicalStaffView(userId, CurrentUser.Roles(user), patientId, t)
  }

  /** The gate lets a Doctor or a Nurse through exactly as the consent decision does, and an
      Admin always. */
  lemma GateIsConsentDecision(t: Tables, user: CurrentUser.Principal, userId: Guid, patientId: Guid)
    ensures PassesGate(t, user, userId, patientId) <==>
      ConsentService.CanClinicalStaffView(userId, CurrentUser.Roles(user), patientId, t)
  {
    if CurrentUser.IsInRole(user, AppRoles.Admin) {
      ConsentService.AdminAlwaysAllowed(userId, CurrentUser.Roles(user), patientId, t);
    }
  }

  /** `GET api/records/{patientId}` (ClinicalStaff). */
  method GetForPatient(db: AppDb, ctx: CurrentUser.RequestContext, c: FieldEncryption.FieldCipher, patientId: Guid, now: Instant)
    returns (r: Response<seq<RecordView>>)
    requires Policies.ClinicalStaff(ctx.user)
    requires db.Valid() && db.pending == []
    modifies db
    ensures db.Valid()
    ensures CurrentUser.UserId(ctx.user).None? ==> r == Forbid && db.tables == old(db.tables) && db.pending == []
    ensures CurrentUser.UserId(ctx.user).Some? && !PassesGate(old(db.tables), ctx.user, CurrentUser.UserId(ctx.user).value, patientId) ==>
      var deny := AuditService.NewEntry(Some(ctx), "RECORD_READ_DENY", Resource(patientId), Some(patientId), now);
      if AuditFits(deny)
      then r == Forbid && db.pending == [] && db.tables == old(db.tables).(auditLogs := old(db.tables.auditLogs) + [deny])
      else r == Fault(SaveFailed(ConstraintViolation)) && db.tables == old(db.tables)
    ensures CurrentUser.UserId(ctx.user).Some? && PassesGate(old(db.tables), ctx.user, CurrentUser.UserId(ctx.user).value, patientId) ==>
      var read := AuditService.NewEntry(Some(ctx), "RECORD_READ", Resource(patientId), Some(patientId), now);
      match DecryptAll(c, PatientRecords(old(db.tables.records), patientId))
      case Failure(e) => r == Fault(DecryptFailed(e)) && db.tables == old(db.tables) && db.pending == []
      case Success(views) =>
        if AuditFits(read)
        then r == Ok(views) && db.pending == [] && db.tables == old(db.tables).(auditLogs := old(db.tables.auditLogs) + [read])
        else r == Fault(SaveFailed(ConstraintViolation)) && db.tables == old(db.tables)
  {
    var userId := CurrentUser.UserId(ctx.user);
    if userId.None? {
      return Forbid;
    }
    if !CurrentUser.IsInRole(ctx.user, AppRoles.Admin) {
      var allowed := ConsentService.CanClinicalStaffView(userId.value, CurrentUser.Roles(ctx.user), patientId, db.tables);
      if !allowed {
        var logged := AuditService.LogAsync(db, Some(ctx), "RECORD_READ_DENY", Resource(patientId), Some(patientId), now);
        if logged.Failure? {
          return Fault(SaveFailed(logged.error));
        }
        return Forbid;
      }
    }
    var records := PatientRecords(db.tables.records, patientId);
    var response := DecryptAll(c, records);
    if response.Failure? {
      return Fault(DecryptFailed(response.error));
    }
    var logged := AuditService.LogAsync(db, Some(ctx), "RECORD_READ", Resource(patientId), Some(patientId), now);
    if logged.Failure? {
      return Fault(SaveFailed(logged.error));
    }
    r := Ok(response.value);
  }

  // ---------------------------------------------------------------------------------------
  // GetMyPatients

  /** One row of `GetMyPatients`. */
  datatype PatientSummary = PatientSummary(
    id: Guid, mrn: string, fullName: string, dateOfBirth: int, gender: string,
    lastVisit: Instant, recordCount: nat)

  /** The caller's records about one patient. */
  function Authored(records: seq<MedicalRecord>, userId: Guid, patientId: Guid): seq<MedicalRecord> {
    Ordering.Filter(records, (x: MedicalRecord) => x.patientId == patientId && x.createdByUserId == userId)
  }

  /** The latest creation time among `xs` (`FirstOrDefault` of the descending times), or the
      default instant 0 when there is none. */
  function Latest(xs: seq<MedicalRecord>): (m: Instant)
    ensures forall i :: 0 <= i < |xs| ==> xs[i].createdAt <= m
    ensures xs != [] ==> exists i :: 0 <= i < |xs| && xs[i].createdAt == m
  {
    if xs == [] then 0
    else if |xs| == 1 then xs[0].createdAt
    else
      var rest := Latest(xs[1..]);
      assert forall i :: 1 <= i < |xs| ==> xs[i] == xs[1..][i - 1];
      if xs[0].createdAt >= rest then xs[0].createdAt else rest
  }

  /** The ids of the patients the caller has written a record for. */
  function AuthoredPatientIds(records: seq<MedicalRecord>, userId: Guid): set<Guid> {
    set x | x in records && x.createdByUserId == userId :: x.patientId
  }

  function Summary(records: seq<MedicalRecord>, userId: Guid, p: Patient): PatientSummary {
    var mine := Authored(records, userId, p.id);
    PatientSummary(p.id, p.mrn, p.fullName, p.dateOfBirth, p.gender, Latest(mine), |mine|)
  }

  predicate LaterVisit(a: PatientSummary, b: PatientSummary) {
    a.lastVisit >= b.lastVisit
  }

  function HasIdIn(ids: set<Guid>): Patient -> bool {
    (p: Patient) => p.id in ids
  }

  /** `Patients.Where(p => patientIds.Contains(p.Id))`. */
  function Listed(patients: seq<Patient>, ids: set<Guid>): (r: seq<Patient>)
    ensures forall p :: p in r <==> p in patients && p.id in ids
  {
    var r := Ordering.Filter(patients, HasIdIn(ids));
    assert forall p :: p in r <==> p in multiset(r);
    assert forall p :: p in patients <==> p in multiset(patients);
    r
  }

  /** `.Select(p => new PatientSummaryResponse(...))`: one summary per listed patient, in order. */
  function SummaryRows(records: seq<MedicalRecord>, userId: Guid, ps: seq<Patient>): (rows: seq<PatientSummary>)
    ensures |rows| == |ps| && forall i :: 0 <= i < |ps| ==> rows[i] == Summary(records, userId, ps[i])
  {
    seq(|ps|, i requires 0 <= i < |ps| => Summary(records, userId, ps[i]))
  }

  /** The summaries are exactly those of the listed patients. */
  lemma SummaryRowsMembers(records: seq<MedicalRecord>, userId: Guid, ps: seq<Patient>)
    ensures var rows := SummaryRows(records, userId, ps);
      forall s :: s in rows <==> exists p :: p in ps && s == Summary(records, userId, p)
  {
    var rows := SummaryRows(records, userId, ps);
    forall s ensures s in rows <==> exists p :: p in ps && s == Summary(records, userId, p) {
      if s in rows {
        var i :| 0 <= i < |rows| && rows[i] == s;
        assert ps[i] in ps;
      }
      if exists p :: p in ps && s == Summary(records, userId, p) {
        var p :| p in ps && s == Summary(records, userId, p);
        var i :| 0 <= i < |ps| && ps[i] == p;
        assert rows[i] == s;
      }
    }
  }

  lemma SortKeepsMembers<T>(xs: seq<T>, le: (T, T) -> bool)
    ensures forall x :: x in Ordering.Sort(xs, le) <==> x in xs
  {
    var r := Ordering.Sort(xs, le);
    assert forall x :: x in r <==> x in multiset(r);
    assert forall x :: x in xs <==> x in multiset(xs);
  }

  /** `GET api/records/my-patients` (DoctorOnly), for a caller with an id: the patients the
      caller has written records for, each with the count and the latest time of the caller's
      own records about them, most recent visit first. */
  function MyPatients(t: Tables, userId: Guid): (r: seq<PatientSummary>)
    ensures Ordering.SortedBy(r, LaterVisit)
    ensures |r| == |Listed(t.patients, AuthoredPatientIds(t.records, userId))|
    ensures forall s :: s in r <==>
      exists p :: p in t.patients && p.id in AuthoredPatientIds(t.records, userId) && s == Summary(t.records, userId, p)
  {
    var ids := AuthoredPatientIds(t.records, userId);
    var listed := Listed(t.patients, ids);
    var rows := SummaryRows(t.records, userId, listed);
    SummaryRowsMembers(t.records, userId, listed);
    assert Ordering.TotalPreorder(LaterVisit);
    Ordering.SortSorted(rows, LaterVisit);
    SortKeepsMembers(rows, LaterVisit);
    Ordering.Sort(rows, LaterVisit)
  }

  /** `GET api/records/my-patients` (DoctorOnly): Forbid for a caller without an id. */
  function GetMyPatients(t: Tables, user: CurrentUser.Principal): (r: Response<seq<PatientSummary>>)
    requires Policies.DoctorOnly(user)
    ensures r == Forbid <==> CurrentUser.UserId(user).None?
    ensures r != Forbid ==> r == Ok(MyPatients(t, CurrentUser.UserId(user).value))
  {
    match CurrentUser.UserId(user)
    case None => Forbid
    case Some(userId) => Ok(MyPatients(t, userId))
  }

  /** A listed patient is one the caller has written at least one record for, and the row
      counts and dates only the caller's own records about that patient. */
  lemma SummaryCountsOwnRecords(records: seq<MedicalRecord>, userId: Guid, p: Patient)
    requires p.id in AuthoredPatientIds(records, userId)
    ensures var s := Summary(records, userId, p);
      && s.recordCount >= 1
      && s.recordCount == |Authored(records, userId, p.id)|
      && (forall x :: x in Authored(records, userId, p.id) ==> x.createdAt <= s.lastVisit && x.createdByUserId == userId)
      && (exists x :: x in records && x.patientId == p.id && x.createdByUserId == userId && x.createdAt == s.lastVisit)
  {
    var x :| x in records && x.createdByUserId == userId && x.patientId == p.id;
    var mine := Authored(records, userId, p.id);
    assert multiset(mine)[x] == multiset(records)[x];
    assert x in mine;
    var k :| 0 <= k < |mine| && mine[k].createdAt == Latest(mine);
    assert mine[k] in records;
    forall y | y in mine ensures y.createdAt <= Latest(mine) && y.createdByUserId == userId {
      var j :| 0 <= j < |mine| && mine[j] == y;
    }
  }
}
