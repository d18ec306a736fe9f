/** `PatientsController` (AdminOnly): an administrator creates a patient and reads one back.
    Unlike the front desk, creation does not look for the MRN first: a duplicate is caught
    by the unique index when the save runs, and the action fails with a server error. */
module PatientsController {
  import opened Base
  import opened Text
  import opened Guids
  import opened Entities
  import opened Store
  import opened Http
  import CurrentUser
  import Policies
  import AppRoles
  import ConsentService
  import AuditService

  datatype CreatePatientRequest = CreatePatientRequest(mrn: string, fullName: string, dateOfBirth: int, gender: string)

  /** `$"patients/{patientId}"`. */
  function Resource(patientId: Guid): string {
    "patients/" + ToString(patientId)
  }

  /** The new patient row: no assigned doctor and no contact details. */
  function NewPatient(request: CreatePatientRequest, patientId: Guid, now: Instant): Patient {
    Patient(patientId, request.mrn, request.fullName, request.dateOfBirth, request.gender, now, None, None, None, None)
  }

  /** The consent row an administrator's creation starts with: neither doctors nor nurses
      allowed. */
  function ClosedConsent(consentId: Guid, patientId: Guid, now: Instant): Consent {
    Consent(consentId, patientId, false, false, now)
  }

  /** `POST api/patients`; `patientId` and `consentId` are the new rows' ids. */
  method Create(db: AppDb, ctx: CurrentUser.RequestContext, request: CreatePatientRequest,
                patientId: Guid, consentId: Guid, now: Instant) returns (r: Response<Patient>)
    requires Policies.AdminOnly(ctx.user)
    requires db.Valid() && db.pending == []
    requires !HasKey(db.tables.patients, PatientKey, patientId) && !HasKey(db.tables.consents, ConsentKey, consentId)
    modifies db
    ensures db.Valid()
    ensures var p := NewPatient(request, patientId, now);
      var t1 := old(db.tables).(patients := old(db.tables.patients) + [p],
                                consents := old(db.tables.consents) + [ClosedConsent(consentId, patientId, now)]);
      var entry := AuditService.NewEntry(Some(ctx), "PATIENT_CREATE", Resource(patientId), Some(patientId), now);
      if !PatientColumnsFit(p) || !MrnUnused(old(db.tables.patients), request.mrn)
      then r == Fault(SaveFailed(ConstraintViolation)) && db.tables == old(db.tables)
      else if !AuditFits(entry) then r == Fault(SaveFailed(ConstraintViolation)) && db.tables == t1
      else r == Created(p) && db.pending == [] && db.tables == t1.(auditLogs := t1.auditLogs + [entry])
  {
    var patient := NewPatient(request, patientId, now);
    var consent := ClosedConsent(consentId, patientId, now);
    var saved := AddPatientWithConsent(db, patient, consent);
    if saved.Failure? {
      return Fault(SaveFailed(saved.error));
    }
    var logged := AuditService.LogAsync(db, Some(ctx), "PATIENT_CREATE", Resource(patientId), Some(patientId), now);
    if logged.Failure? {
      return Fault(SaveFailed(logged.error));
    }
    r := Created(patient);
  }

  /** A patient an administrator creates is closed to the clinical staff until the patient
      opens it: only an Admin passes the consent decision for it. */
  lemma CreatedPatientIsClosedToCare(t: Tables, p: Patient, consentId: Guid, now: Instant,
                                     actor: Guid, roles: seq<string>)
    requires Constraints(t)
    requires !HasKey(t.patients, PatientKey, p.id) && !HasKey(t.consents, ConsentKey, consentId)
    requires PatientColumnsFit(p) && MrnUnused(t.patients, p.mrn)
    ensures var t1 := t.(patients := t.patients + [p], consents := t.consents + [ClosedConsent(consentId, p.id, now)]);
      && ConsentOf(t1, p.id) == Some(ClosedConsent(consentId, p.id, now))
      && (ConsentService.CanClinicalStaffView(actor, roles, p.id, t1) <==> ContainsIgnoreCase(roles, AppRoles.Admin))
  {
    var c := ClosedConsent(consentId, p.id, now);
    var t1 := t.(patients := t.patients + [p], consents := t.consents + [c]);
    SaveAddedPatientWithConsent(t, p, c);
    assert Constraints(t1);
    assert t1.consents[|t.consents|] == c;
    ConsentOfUnique(t1, p.id, c);
    ConsentService.DecideIsPermits(roles, Some(c));
  }

  /** `GET api/patients/{patientId}`: the row, after logging the read. */
  method GetById(db: AppDb, ctx: CurrentUser.RequestContext, patientId: Guid, now: Instant) returns (r: Response<Patient>)
    requires Policies.AdminOnly(ctx.user)
    requires db.Valid() && db.pending == []
    modifies db
    ensures db.Valid()
    ensures match FindPatient(old(db.tables.patients), patientId)
      case None => r == NotFound && db.tables == old(db.tables) && db.pending == []
      case Some(i) =>
        var entry := AuditService.NewEntry(Some(ctx), "PATIENT_READ", Resource(patientId), Some(patientId), now);
        if AuditFits(entry)
        then r == Ok(old(db.tables.patients)[i]) && db.pending == []
             && db.tables == old(db.tables).(auditLogs := old(db.tables.auditLogs) + [entry])
        else r == Fault(SaveFailed(ConstraintViolation)) && db.tables == old(db.tables)
  {
    var i := FindPatient(db.tables.patients, patientId);
    if i.None? {
      return NotFound;
    }
    var patient := db.tables.patients[i.value];
    var logged := AuditService.LogAsync(db, Some(ctx), "PATIENT_READ", Resource(patientId), Some(patientId), now);
    if logged.Failure? {
      return Fault(SaveFailed(logged.error));
    }
    r := Ok(patient);
  }

  /** The patient a successful creation wrote is the one `GetById` finds under its id. */
  lemma CreatedPatientFound(t: Tables, p: Patient)
    requires Constraints(t) && !HasKey(t.patients, PatientKey, p.id)
    ensures FindPatient(t.patients + [p], p.id) == Some(|t.patients|)
  {
    var ps := t.patients + [p];
    assert ps[|t.patients|] == p;
    assert forall i :: 0 <= i < |t.patients| ==> ps[i] == t.patients[i];
  }
}
