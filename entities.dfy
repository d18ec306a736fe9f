/** The rows of the store and the user accounts of the identity store, field for field as the
    core reads and writes them. `DateTime` columns are `Instant`s; `DateOnly` is a day number. */
module Entities {
  import opened Base
  import opened Guids

  datatype Patient = Patient(
    id: Guid,
    mrn: string,
    fullName: string,
    dateOfBirth: int,
    gender: string,
    createdAt: Instant,
    assignedDoctorId: Option<Guid>,
    assignedDoctorEmail: Option<string>,
    contactPhone: Option<string>,
    contactEmail: Option<string>)

  /** The three clinical fields hold only the text the field cipher produced. */
  datatype MedicalRecord = MedicalRecord(
    id: Guid,
    patientId: Guid,
    diagnosisEnc: string,
    prescriptionsEnc: string,
    clinicalNotesEnc: string,
    createdByUserId: Guid,
    createdAt: Instant)

  datatype Consent = Consent(
    id: Guid,
    patientId: Guid,
    allowDoctors: bool,
    allowNurses: bool,
    updatedAt: Instant)

  /** The database-generated `long` key of an audit row is not modelled: audit rows are only
      ever appended, and an entry is identified by its position in the ledger. */
  datatype AuditLog = AuditLog(
    actorUserId: Option<Guid>,
    actorEmail: string,
    actorRoles: string,
    patientId: Option<Guid>,
    action: string,
    resource: string,
    timestamp: Instant,
    ipAddress: string,
    userAgent: string)

  datatype Otp = Otp(
    id: Guid,
    patientId: Guid,
    code: string,
    expiresAt: Instant,
    isUsed: bool,
    createdAt: Instant)

  /** `kind` is the `Type` column ("RECORD_ADDED", "CONSENT_CHANGED"). */
  datatype Notification = Notification(
    id: Guid,
    patientId: Guid,
    title: string,
    message: string,
    kind: string,
    isRead: bool,
    createdAt: Instant,
    relatedRecordId: Option<Guid>,
    triggeredByUserId: Option<Guid>,
    triggeredByEmail: Option<string>)

  /** An identity account, optionally linked to the patient it belongs to. */
  datatype ApplicationUser = ApplicationUser(
    id: Guid,
    email: Option<string>,
    patientId: Option<Guid>)
}

/** The role names the application defines. */
module AppRoles {
  const Admin: string := "Admin"
  const Doctor: string := "Doctor"
  const Nurse: string := "Nurse"
  const Patient: string := "Patient"
  const Receptionist: string := "Receptionist"
}
