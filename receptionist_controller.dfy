/** `ReceptionistController` (FrontDesk: Admin or Receptionist): the front desk registers
    patients, lists them, and assigns a doctor. The doctor is looked up in the identity
    store, which the action only reads. */
module ReceptionistController {
  import opened Base
  import opened Text
  import opened Guids
  import opened Entities
  import opened Store
  import opened Http
  import Ordering
  import CurrentUser
  import Policies
  import AppRoles
  import Identity
  import ConsentService
  import AuditService

  datatype RegisterPatientRequest = RegisterPatientRequest(
    mrn: string, fullName: string, dateOfBirth: int, gender: string,
    assignedDoctorId: Option<Guid>, contactPhone: Option<string>, contactEmail: Option<string>)

  /** The body `RegisterPatient` answers with (its fixed message aside). */
  datatype Registered = Registered(id: Guid, mrn: string, fullName: string, assignedDoctorEmail: Option<string>)

  function RegisterResource(patientId: Guid): string {
    "receptionist/register-patient/" + ToString(patientId)
  }

  function AssignResource(patientId: Guid): string {
    "receptionist/assign-doctor/" + ToString(patientId)
  }

  // ---------------------------------------------------------------------------------------
  // RegisterPatient

  /** The email stored with a requested doctor: the email of the account with that id, and
      nothing when no doctor is requested or no account has the id. */
  function DoctorEmail(users: seq<ApplicationUser>, doctorId: Option<Guid>): (r: Option<string>)
    ensures doctorId.None? ==> r.None?
    ensures doctorId.Some? && (forall i :: 0 <= i < |users| ==> users[i].id != doctorId.value) ==> r.None?
    ensures r.Some? ==> exists i :: 0 <= i < |users| && Some(users[i].id) == doctorId && users[i].email == r
  {
    match doctorId
    case None => None
    case Some(d) =>
      match Identity.FindById(users, d)
      case None => None
      case Some(u) =>
        var i :| 0 <= i < |users| && users[i] == u;
        u.email
  }

  /** The new patient row. */
  function NewPatient(request: RegisterPatientRequest, patientId: Guid, doctorEmail: Option<string>, now: Instant): Patient {
    Patient(patientId, request.mrn, request.fullName, request.dateOfBirth, request.gender, now,
            request.assignedDoctorId, doctorEmail, request.contactPhone, request.contactEmail)
  }

  /** The consent row a front-desk registration starts with: both doctors and nurses allowed. */
  function OpenConsent(consentId: Guid, patientId: Guid, now: Instant): Consent {
    Consent(consentId, patientId, true, true, now)
  }

  /** `POST api/receptionist/register-patient`; `patientId` and `consentId` are the new rows'
      ids. An MRN already in use is refused before anything is written; otherwise the patient
      and its consent are saved together, then the audit entry. */
  method RegisterPatient(db: AppDb, identity: Identity.UserStore, ctx: CurrentUser.RequestContext,
                         request: RegisterPatientRequest, patientId: Guid, consentId: Guid, now: Instant)
    returns (r: Response<Registered>)
    requires Policies.FrontDesk(ctx.user)
    requires db.Valid() && db.pending == []
    requires !HasKey(db.tables.patients, PatientKey, patientId) && !HasKey(db.tables.consents, ConsentKey, consentId)
    modifies db
    ensures db.Valid()
    ensures !MrnUnused(old(db.tables.patients), request.mrn) ==>
      r == BadRequest && db.tables == old(db.tables) && db.pending == []
    ensures MrnUnused(old(db.tables.patients), request.mrn) ==>
      var p := NewPatient(request, patientId, DoctorEmail(identity.users, request.assignedDoctorId), now);
      var t1 := old(db.tables).(patients := old(db.tables.patients) + [p],
                                consents := old(db.tables.consents) + [OpenConsent(consentId, patientId, now)]);
      var entry := AuditService.NewEntry(Some(ctx), "PATIENT_REGISTER", RegisterResource(patientId), Some(patientId), now);
      if !PatientColumnsFit(p) then r == Fault(SaveFailed(ConstraintViolation)) && db.tables == old(db.tables)
      else if !AuditFits(entry) then r == Fault(SaveFailed(ConstraintViolation)) && db.tables == t1
      else r == Ok(Registered(patientId, request.mrn, request.fullName, p.assignedDoctorEmail))
           && db.pending == [] && db.tables == t1.(auditLogs := t1.auditLogs + [entry])
  {
    if FindPatientByMrn(db.tables.patients, request.mrn).Some? {
      return BadRequest;
    }
    var doctorEmail := DoctorEmail(identity.users, request.assignedDoctorId);
    var patient := NewPatient(request, patientId, doctorEmail, now);
    r := SaveRegistration(db, ctx, patient, consentId, now);
  }

  /** The part of `RegisterPatient` after the MRN check: the patient and its open consent
      are saved together, then the registration is logged. */
  method SaveRegistration(db: AppDb, ctx: CurrentUser.RequestContext, patient: Patient, consentId: Guid, now: Instant)
    returns (r: Response<Registered>)
    requires db.Valid() && db.pending == []
    requires !HasKey(db.tables.patients, PatientKey, patient.id) && !HasKey(db.tables.consents, ConsentKey, consentId)
    requires MrnUnused(db.tables.patients, patient.mrn)
    modifies db
    ensures db.Valid()
    ensures var t1 := old(db.tables).(patients := old(db.tables.patients) + [patient],
                                      consents := old(db.tables.consents) + [OpenConsent(consentId, patient.id, now)]);
      var entry := AuditService.NewEntry(Some(ctx), "PATIENT_REGISTER", RegisterResource(patient.id), Some(patient.id), now);
      if !PatientColumnsFit(patient) then r == Fault(SaveFailed(ConstraintViolation)) && db.tables == old(db.tables)
      else if !AuditFits(entry) then r == Fault(SaveFailed(ConstraintViolation)) && db.tables == t1
      else r == Ok(Registered(patient.id, patient.mrn, patient.fullName, patient.assignedDoctorEmail))
           && db.pending == [] && db.tables == t1.(auditLogs := t1.auditLogs + [entry])
  {
    var consent := OpenConsent(consentId, patient.id, now);
    var saved := AddPatientWithConsent(db, patient, consent);
    if saved.Failure? {
      return Fault(SaveFailed(saved.error));
    }
    var logged := AuditService.LogAsync(db, Some(ctx), "PATIENT_REGISTER", RegisterResource(patient.id), Some(patient.id), now);
    if logged.Failure? {
      return Fault(SaveFailed(logged.error));
    }
    r := Ok(Registered(patient.id, patient.mrn, patient.fullName, patient.assignedDoctorEmail));
  }

  /** A patient registered at the front desk is, from that moment, open to the clinical
      staff: its consent row is the open one, so an Admin, a Doctor or a Nurse passes the
      consent decision for it and nobody else does. */
  lemma RegisteredPatientIsOpenToCare(t: Tables, p: Patient, consentId: Guid, now: Instant,
                                      actor: Guid, roles: seq<string>)
    requires Constraints(t)
    requires !HasKey(t.patients, PatientKey, p.id) && !HasKey(t.consents, ConsentKey, consentId)
    requires PatientColumnsFit(p) && MrnUnused(t.patients, p.mrn)
    ensures var t1 := t.(patients := t.patients + [p], consents := t.consents + [OpenConsent(consentId, p.id, now)]);
      && ConsentOf(t1, p.id) == Some(OpenConsent(consentId, p.id, now))
      && (ConsentService.CanClinicalStaffView(actor, roles, p.id, t1) <==>
          ContainsIgnoreCase(roles, AppRoles.Admin) || ContainsIgnoreCase(roles, AppRoles.Doctor)
          || ContainsIgnoreCase(roles, AppRoles.Nurse))
  {
    var c := OpenConsent(consentId, p.id, now);
    var t1 := t.(patients := t.patients + [p], consents := t.consents + [c]);
    SaveAddedPatientWithConsent(t, p, c);
    assert Constraints(t1);
    assert t1.consents[|t.consents|] == c;
    ConsentOfUnique(t1, p.id, c);
    ConsentService.DecideIsPermits(roles, Some(c));
  }

  // ---------------------------------------------------------------------------------------
  // Listings

  /** One row of `GetDoctors`. */
  datatype DoctorView = DoctorView(id: Guid, email: Option<string>)

  function HoldsRole(userRoles: map<Guid, seq<string>>, name: string): ApplicationUser -> bool {
    (u: ApplicationUser) => name in Identity.RolesOf(userRoles, u.id)
  }

  function DoctorViews(doctors: seq<ApplicationUser>): (r: seq<DoctorView>)
    ensures |r| == |doctors| && forall i :: 0 <= i < |r| ==> r[i] == DoctorView(doctors[i].id, doctors[i].email)
  {
    seq(|doctors|, i requires 0 <= i < |doctors| => DoctorView(doctors[i].id, doctors[i].email))
  }

  /** `GET api/receptionist/doctors`: the id and email of every account holding the role
      stored under exactly the name "Doctor", in account order; nobody when no role has that
      name. `roles`, `users` and `userRoles` are the identity store's contents. */
  function GetDoctors(roles: seq<string>, users: seq<ApplicationUser>, userRoles: map<Guid, seq<string>>,
                      user: CurrentUser.Principal): (r: Response<seq<DoctorView>>)
    requires Policies.FrontDesk(user)
    ensures r.Ok?
    ensures AppRoles.Doctor !in roles ==> r.body == []
    ensures AppRoles.Doctor in roles ==>
      forall u :: u in users && HoldsRole(userRoles, AppRoles.Doctor)(u) ==> DoctorView(u.id, u.email) in r.body
    ensures forall i :: 0 <= i < |r.body| ==>
      exists u :: u in users && HoldsRole(userRoles, AppRoles.Doctor)(u) && r.body[i] == DoctorView(u.id, u.email)
    ensures AppRoles.Doctor in roles ==> |r.body| == |Ordering.Filter(users, HoldsRole(userRoles, AppRoles.Doctor))|
  {
    if AppRoles.Doctor !in roles then Ok([])
    else
      var doctors := Ordering.Filter(users, HoldsRole(userRoles, AppRoles.Doctor));
      DoctorsListed(users, userRoles, doctors);
      Ok(DoctorViews(doctors))
  }

  /** Every doctor account has its row, and every row is a doctor account's. */
  lemma DoctorsListed(users: seq<ApplicationUser>, userRoles: map<Guid, seq<string>>, doctors: seq<ApplicationUser>)
    requires doctors == Ordering.Filter(users, HoldsRole(userRoles, AppRoles.Doctor))
    ensures forall u :: u in users && HoldsRole(userRoles, AppRoles.Doctor)(u) ==> DoctorView(u.id, u.email) in DoctorViews(doctors)
    ensures forall i :: 0 <= i < |DoctorViews(doctors)| ==>
      exists u :: u in users && HoldsRole(userRoles, AppRoles.Doctor)(u) && DoctorViews(doctors)[i] == DoctorView(u.id, u.email)
  {
    var r := DoctorViews(doctors);
    forall u | u in users && HoldsRole(userRoles, AppRoles.Doctor)(u)
      ensures DoctorView(u.id, u.email) in r
    {
      assert multiset(doctors)[u] == multiset(users)[u] > 0;
      var k :| 0 <= k < |doctors| && doctors[k] == u;
      assert r[k] == DoctorView(u.id, u.email);
    }
    forall i | 0 <= i < |r|
      ensures exists u :: u in users && HoldsRole(userRoles, AppRoles.Doctor)(u) && r[i] == DoctorView(u.id, u.email)
    {
      assert doctors[i] in users && HoldsRole(userRoles, AppRoles.Doctor)(doctors[i]);
    }
  }

  predicate NewerPatient(a: Patient, b: Patient) {
    a.createdAt >= b.createdAt
  }

  function AssignedTo(doctorId: Guid): Patient -> bool {
    (p: Patient) => p.assignedDoctorId == Some(doctorId)
  }

  /** `GET api/receptionist/patients`: every patient, newest registration first. */
  function GetPatients(t: Tables, user: CurrentUser.Principal): (r: Response<seq<Patient>>)
    requires Policies.FrontDesk(user)
    ensures r.Ok? && Ordering.SortedBy(r.body, NewerPatient)
    ensures r.Ok? && multiset(r.body) == multiset(t.patients)
  {
    assert Ordering.TotalPreorder(NewerPatient);
    Ordering.SortSorted(t.patients, NewerPatient);
    Ok(Ordering.Sort(t.patients, NewerPatient))
  }

  /** `GET api/receptionist/patients/by-doctor/{doctorId}`: exactly the patients assigned to
      that doctor, newest registration first. */
  function GetPatientsByDoctor(t: Tables, user: CurrentUser.Principal, doctorId: Guid): (r: Response<seq<Patient>>)
    requires Policies.FrontDesk(user)
    ensures r.Ok? && Ordering.SortedBy(r.body, NewerPatient)
    ensures r.Ok? && (forall p :: multiset(r.body)[p] == if p.assignedDoctorId == Some(doctorId) then multiset(t.patients)[p] else 0)
  {
    var mine := Ordering.Filter(t.patients, AssignedTo(doctorId));
    assert Ordering.TotalPreorder(NewerPatient);
    Ordering.SortSorted(mine, NewerPatient);
    Ok(Ordering.Sort(mine, NewerPatient))
  }

  // ---------------------------------------------------------------------------------------
  // AssignDoctor

  /** The patient row after an assignment: the doctor's id and the account's email, nothing
      else changed. */
  function Assigned(p: Patient, doctorId: Guid, doctorEmail: Option<string>): (q: Patient)
    ensures q.assignedDoctorId == Some(doctorId) && q.assignedDoctorEmail == doctorEmail
    ensures q.(assignedDoctorId := p.assignedDoctorId, assignedDoctorEmail := p.assignedDoctorEmail) == p
  {
    p.(assignedDoctorId := Some(doctorId), assignedDoctorEmail := doctorEmail)
  }

  /** `PUT api/receptionist/patients/{patientId}/assign-doctor`. Any account with the id is
      accepted as the doctor; its roles are not looked at. */
  method AssignDoctor(db: AppDb, identity: Identity.UserStore, ctx: CurrentUser.RequestContext,
                      patientId: Guid, doctorId: Guid, now: Instant) returns (r: Response<()>)
    requires Policies.FrontDesk(ctx.user)
    requires db.Valid() && db.pending == []
    modifies db
    ensures db.Valid()
    ensures match FindPatient(old(db.tables.patients), patientId)
      case None => r == NotFound && db.tables == old(db.tables) && db.pending == []
      case Some(i) =>
        match Identity.FindById(identity.users, doctorId)
        case None => r == BadRequest && db.tables == old(db.tables) && db.pending == []
        case Some(doctor) =>
          var t1 := old(db.tables).(patients := old(db.tables.patients)[i := Assigned(old(db.tables.patients)[i], doctorId, doctor.email)]);
          var entry := AuditService.NewEntry(Some(ctx), "PATIENT_ASSIGN_DOCTOR", AssignResource(patientId), Some(patientId), now);
          if AuditFits(entry)
          then r == NoContent && db.pending == [] && db.tables == t1.(auditLogs := t1.auditLogs + [entry])
          else r == Fault(SaveFailed(ConstraintViolation)) && db.tables == t1
  {
    var i := FindPatient(db.tables.patients, patientId);
    if i.None? {
      return NotFound;
    }
    var doctor := Identity.FindById(identity.users, doctorId);
    if doctor.None? {
      return BadRequest;
    }
    r := SaveAssignment(db, ctx, i.value, doctorId, doctor.value.email, patientId, now);
  }

  /** The part of `AssignDoctor` after both lookups: the tracked row is changed and saved,
      then the assignment is logged. */
  method SaveAssignment(db: AppDb, ctx: CurrentUser.RequestContext, i: nat, doctorId: Guid,
                        doctorEmail: Option<string>, patientId: Guid, now: Instant) returns (r: Response<()>)
    requires db.Valid() && db.pending == []
    requires i < |db.tables.patients|
    modifies db
    ensures db.Valid()
    ensures var t1 := old(db.tables).(patients := old(db.tables.patients)[i := Assigned(old(db.tables.patients)[i], doctorId, doctorEmail)]);
      var entry := AuditService.NewEntry(Some(ctx), "PATIENT_ASSIGN_DOCTOR", AssignResource(patientId), Some(patientId), now);
      if AuditFits(entry)
      then r == NoContent && db.pending == [] && db.tables == t1.(auditLogs := t1.auditLogs + [entry])
      else r == Fault(SaveFailed(ConstraintViolation)) && db.tables == t1
  {
    var patient := Assigned(db.tables.patients[i], doctorId, doctorEmail);
    assert PatientColumnsFit(patient) by {
      assert PatientColumnsFit(db.tables.patients[i]);
    }
    db.MarkModified(PatientRow(patient));
    assert db.pending == [Entry(PatientRow(patient), Modified)];
    SaveModifiedPatient(db.tables, i, patient);
    var saved := db.SaveChangesAsync();
    var logged := AuditService.LogAsync(db, Some(ctx), "PATIENT_ASSIGN_DOCTOR", AssignResource(patientId), Some(patientId), now);
    if logged.Failure? {
      return Fault(SaveFailed(logged.error));
    }
    r := NoContent;
  }

  /** After an assignment the patient is listed under the new doctor and under no other. */
  lemma AssignedPatientListedUnderDoctor(t: Tables, user: CurrentUser.Principal, i: nat,
                                         doctorId: Guid, doctorEmail: Option<string>, other: Guid)
    requires Policies.FrontDesk(user)
    requires i < |t.patients| && other != doctorId
    ensures var q := Assigned(t.patients[i], doctorId, doctorEmail);
      var t1 := t.(patients := t.patients[i := q]);
      && q in GetPatientsByDoctor(t1, user, doctorId).body
      && q !in GetPatientsByDoctor(t1, user, other).body
  {
    var q := Assigned(t.patients[i], doctorId, doctorEmail);
    var t1 := t.(patients := t.patients[i := q]);
    assert t1.patients[i] == q;
    assert q in multiset(t1.patients);
    var listed := GetPatientsByDoctor(t1, user, doctorId).body;
    assert multiset(listed)[q] == multiset(t1.patients)[q];
    assert q in multiset(listed);
    var others := GetPatientsByDoctor(t1, user, other).body;
    assert multiset(others)[q] == 0;
  }
}
