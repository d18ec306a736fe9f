/** `AppDbContext`: the committed tables, the change tracker of pending entries, and the save
    that refuses to modify or delete a medical record or an audit row.

    A save commits the pending entries in order as one transaction: all of them or, on any
    failure, none. Added rows are appended; a Modified or Deleted entry acts on the row with the
    same key and fails with a concurrency conflict when there is none. The committed state must
    satisfy the schema's constraints (primary keys, the unique indexes, the foreign keys to
    `Patients` and the patient column lengths), or the whole save fails.
 */
module Store {
  import opened Base
  import opened Guids
  import opened Entities
  import Ordering

  datatype Entity =
    | PatientRow(patient: Patient)
    | RecordRow(record: MedicalRecord)
    | ConsentRow(consent: Consent)
    | AuditRow(log: AuditLog)
    | OtpRow(otp: Otp)
    | NotificationRow(notification: Notification)

  datatype EntityState = Added | Modified | Deleted

  /** One entry of the change tracker. */
  datatype Entry = Entry(entity: Entity, state: EntityState)

  datatype SaveError =
    | AppendOnlyViolation   // InvalidOperationException from EnforceAppendOnly
    | ConcurrencyConflict   // DbUpdateConcurrencyException: no row with that key
    | ConstraintViolation   // DbUpdateException: a key, index, foreign key or length check failed

  datatype Tables = Tables(
    patients: seq<Patient>,
    records: seq<MedicalRecord>,
    consents: seq<Consent>,
    auditLogs: seq<AuditLog>,
    otps: seq<Otp>,
    notifications: seq<Notification>)

  const EmptyTables: Tables := Tables([], [], [], [], [], [])

  // ---------------------------------------------------------------------------------------
  // The append-only rule

  /** MedicalRecord and AuditLog rows may only ever be added. */
  predicate IsAppendOnlyEntity(e: Entity) {
    e.RecordRow? || e.AuditRow?
  }

  predicate BreaksAppendOnly(entry: Entry) {
    IsAppendOnlyEntity(entry.entity) && (entry.state == Modified || entry.state == Deleted)
  }

  predicate AppendOnlyRespected(changes: seq<Entry>) {
    forall i :: 0 <= i < |changes| ==> !BreaksAppendOnly(changes[i])
  }

  // ---------------------------------------------------------------------------------------
  // Keys and lookups

  function PatientKey(p: Patient): Guid { p.id }
  function RecordKey(r: MedicalRecord): Guid { r.id }
  function ConsentKey(c: Consent): Guid { c.id }
  function OtpKey(o: Otp): Guid { o.id }
  function NotificationKey(n: Notification): Guid { n.id }

  predicate HasKey<T>(rows: seq<T>, key: T -> Guid, k: Guid) {
    exists i :: 0 <= i < |rows| && key(rows[i]) == k
  }

  predicate KeysDistinct<T>(rows: seq<T>, key: T -> Guid) {
    forall i, j :: 0 <= i < j < |rows| ==> key(rows[i]) != key(rows[j])
  }

  /** `UPDATE ... WHERE Id = key(row)`. */
  function ReplaceKey<T>(rows: seq<T>, key: T -> Guid, row: T): (r: seq<T>)
    ensures |r| == |rows|
    ensures forall i :: 0 <= i < |rows| ==> r[i] == if key(rows[i]) == key(row) then row else rows[i]
  {
    seq(|rows|, i requires 0 <= i < |rows| => if key(rows[i]) == key(row) then row else rows[i])
  }

  /** `DELETE ... WHERE Id = k`. */
  function RemoveKey<T(!new)>(rows: seq<T>, key: T -> Guid, k: Guid): seq<T> {
    Ordering.Filter(rows, (x: T) => key(x) != k)
  }

  /** One entry applied to one table; None when a Modified or Deleted row has no match. */
  function ApplyToRows<T(!new)>(rows: seq<T>, key: T -> Guid, row: T, state: EntityState): Option<seq<T>> {
    match state
    case Added => Some(rows + [row])
    case Modified => if HasKey(rows, key, key(row)) then Some(ReplaceKey(rows, key, row)) else None
    case Deleted => if HasKey(rows, key, key(row)) then Some(RemoveKey(rows, key, key(row))) else None
  }

  function Lift(r: Option<Tables>): Result<Tables, SaveError> {
    match r
    case Some(t) => Success(t)
    case None => Failure(ConcurrencyConflict)
  }

  function ApplyEntry(t: Tables, entry: Entry): Result<Tables, SaveError> {
    match entry.entity
    case PatientRow(p) =>
      Lift(match ApplyToRows(t.patients, PatientKey, p, entry.state)
        case Some(rows) => Some(t.(patients := rows)) case None => None)
    case RecordRow(r) =>
      Lift(match ApplyToRows(t.records, RecordKey, r, entry.state)
        case Some(rows) => Some(t.(records := rows)) case None => None)
    case ConsentRow(c) =>
      Lift(match ApplyToRows(t.consents, ConsentKey, c, entry.state)
        case Some(rows) => Some(t.(consents := rows)) case None => None)
    case AuditRow(a) =>
      // Audit rows carry no key in this model, so only an insertion has a meaning here;
      // EnforceAppendOnly rejects every other audit entry before the commit is reached.
      if entry.state == Added then Success(t.(auditLogs := t.auditLogs + [a]))
      else Failure(ConcurrencyConflict)
    case OtpRow(o) =>
      Lift(match ApplyToRows(t.otps, OtpKey, o, entry.state)
        case Some(rows) => Some(t.(otps := rows)) case None => None)
    case NotificationRow(n) =>
      Lift(match ApplyToRows(t.notifications, NotificationKey, n, entry.state)
        case Some(rows) => Some(t.(notifications := rows)) case None => None)
  }

  function ApplyAll(t: Tables, changes: seq<Entry>): Result<Tables, SaveError>
    decreases |changes|
  {
    if changes == [] then Success(t)
    else
      match ApplyEntry(t, changes[0])
      case Success(t1) => ApplyAll(t1, changes[1..])
      case Failure(e) => Failure(e)
  }

  // ---------------------------------------------------------------------------------------
  // Schema constraints (OnModelCreating)

  predicate MrnsDistinct(patients: seq<Patient>) {
    forall i, j :: 0 <= i < j < |patients| ==> patients[i].mrn != patients[j].mrn
  }

  predicate ConsentPatientsDistinct(consents: seq<Consent>) {
    forall i, j :: 0 <= i < j < |consents| ==> consents[i].patientId != consents[j].patientId
  }

  /** `HasMaxLength` on the patient's columns. */
  predicate PatientColumnsFit(p: Patient) {
    |p.mrn| <= 64 && |p.fullName| <= 200 && |p.gender| <= 50
  }

  /** `HasMaxLength` on the audit columns. */
  predicate AuditFits(a: AuditLog) {
    && |a.action| <= 100 && |a.resource| <= 200 && |a.actorEmail| <= 256
    && |a.actorRoles| <= 400 && |a.ipAddress| <= 100 && |a.userAgent| <= 400
  }

  /** `HasMaxLength` on the notification columns. */
  predicate NotificationFits(n: Notification) {
    && |n.title| <= 200 && |n.message| <= 1000 && |n.kind| <= 50
    && (n.triggeredByEmail.Some? ==> |n.triggeredByEmail.value| <= 256)
  }

  predicate Constraints(t: Tables) {
    && KeysDistinct(t.patients, PatientKey)
    && MrnsDistinct(t.patients)
    && (forall i :: 0 <= i < |t.patients| ==> PatientColumnsFit(t.patients[i]))
    && KeysDistinct(t.records, RecordKey)
    && (forall i :: 0 <= i < |t.records| ==> HasKey(t.patients, PatientKey, t.records[i].patientId))
    && KeysDistinct(t.consents, ConsentKey)
    && ConsentPatientsDistinct(t.consents)
    && (forall i :: 0 <= i < |t.consents| ==> HasKey(t.patients, PatientKey, t.consents[i].patientId))
    && (forall i :: 0 <= i < |t.auditLogs| ==> AuditFits(t.auditLogs[i]))
    && KeysDistinct(t.otps, OtpKey)
    && (forall i :: 0 <= i < |t.otps| ==> |t.otps[i].code| <= 10)
    && KeysDistinct(t.notifications, NotificationKey)
    && (forall i :: 0 <= i < |t.notifications| ==> NotificationFits(t.notifications[i]))
  }

  /** `base.SaveChanges`: the transaction's outcome. */
  function Commit(t: Tables, changes: seq<Entry>): Result<Tables, SaveError> {
    match ApplyAll(t, changes)
    case Success(t1) => if Constraints(t1) then Success(t1) else Failure(ConstraintViolation)
    case Failure(e) => Failure(e)
  }

  /** The outcome of either `SaveChanges` override: the append-only check, then the commit. */
  function SaveOutcome(t: Tables, changes: seq<Entry>): (r: Result<Tables, SaveError>)
    ensures r.Success? ==> Constraints(r.value)
  {
    if !AppendOnlyRespected(changes) then Failure(AppendOnlyViolation) else Commit(t, changes)
  }

  // ---------------------------------------------------------------------------------------
  // What a successful save does to the append-only tables

  /** Both append-only tables are extended, never rewritten. */
  predicate Extends(t: Tables, t1: Tables) {
    t.records <= t1.records && t.auditLogs <= t1.auditLogs
  }

  lemma {:induction false} ApplyAllExtends(t: Tables, changes: seq<Entry>)
    requires AppendOnlyRespected(changes)
    requires ApplyAll(t, changes).Success?
    ensures Extends(t, ApplyAll(t, changes).value)
    decreases |changes|
  {
    if changes != [] {
      assert !BreaksAppendOnly(changes[0]);
      var t1 := ApplyEntry(t, changes[0]).value;
      assert Extends(t, t1);
      assert AppendOnlyRespected(changes[1..]) by {
        forall i | 0 <= i < |changes[1..]| ensures !BreaksAppendOnly(changes[1..][i]) {
          assert changes[1..][i] == changes[i + 1];
        }
      }
      ApplyAllExtends(t1, changes[1..]);
    }
  }

  /** Across a successful save, every medical record and audit row that was committed before
      is still there, in the same place: the old tables are prefixes of the new. */
  lemma SaveExtends(t: Tables, changes: seq<Entry>)
    requires SaveOutcome(t, changes).Success?
    ensures Extends(t, SaveOutcome(t, changes).value)
  {
    ApplyAllExtends(t, changes);
  }

  /** A change set that would modify or delete a medical record or an audit row fails, and
      fails with the append-only error, whatever else it holds. */
  lemma SaveRejectsAppendOnlyBreach(t: Tables, changes: seq<Entry>, i: nat)
    requires i < |changes| && BreaksAppendOnly(changes[i])
    ensures SaveOutcome(t, changes) == Failure(AppendOnlyViolation)
  {
  }

  /** Prefix extension composes over any number of saves. */
  lemma ExtendsTransitive(t0: Tables, t1: Tables, t2: Tables)
    requires Extends(t0, t1) && Extends(t1, t2)
    ensures Extends(t0, t2)
  {
  }

  // ---------------------------------------------------------------------------------------
  // Single-entry saves the services perform

  lemma KeysDistinctAppend<T>(rows: seq<T>, key: T -> Guid, x: T)
    requires KeysDistinct(rows, key)
    requires !HasKey(rows, key, key(x))
    ensures KeysDistinct(rows + [x], key)
  {
    var r := rows + [x];
    forall i, j | 0 <= i < j < |r| ensures key(r[i]) != key(r[j]) {
      if j == |rows| {
        assert r[i] == rows[i];
      } else {
        assert r[i] == rows[i] && r[j] == rows[j];
      }
    }
  }

  lemma KeysDistinctReplace<T>(rows: seq<T>, key: T -> Guid, x: T)
    requires KeysDistinct(rows, key)
    ensures KeysDistinct(ReplaceKey(rows, key, x), key)
  {
    var r := ReplaceKey(rows, key, x);
    forall i, j | 0 <= i < j < |r| ensures key(r[i]) != key(r[j]) {
      assert key(r[i]) == key(rows[i]) && key(r[j]) == key(rows[j]);
    }
  }

  /** The one row of a duplicate-free table with a given key is replaced, all others stay. */
  lemma ReplaceKeyAt<T>(rows: seq<T>, key: T -> Guid, x: T, i: nat)
    requires KeysDistinct(rows, key)
    requires i < |rows| && key(rows[i]) == key(x)
    ensures ReplaceKey(rows, key, x) == rows[i := x]
  {
    var r := ReplaceKey(rows, key, x);
    forall j | 0 <= j < |rows| ensures r[j] == rows[i := x][j] {
      if j != i {
        assert key(rows[j]) != key(rows[i]) by {
          if j < i { } else { }
        }
      }
    }
  }

  /** Appending an audit row commits exactly when its columns fit. */
  lemma SaveAddedAudit(t: Tables, a: AuditLog)
    requires Constraints(t)
    ensures SaveOutcome(t, [Entry(AuditRow(a), Added)]) ==
      if AuditFits(a) then Success(t.(auditLogs := t.auditLogs + [a])) else Failure(ConstraintViolation)
  {
    var changes := [Entry(AuditRow(a), Added)];
    var t1 := t.(auditLogs := t.auditLogs + [a]);
    assert ApplyAll(t, changes) == ApplyAll(t1, changes[1..]);
    if AuditFits(a) {
      forall i | 0 <= i < |t1.auditLogs| ensures AuditFits(t1.auditLogs[i]) {
        if i < |t.auditLogs| { assert t1.auditLogs[i] == t.auditLogs[i]; }
      }
    } else {
      assert t1.auditLogs[|t.auditLogs|] == a;
    }
  }

  /** Appending a notification with an unused key commits exactly when its columns fit. */
  lemma SaveAddedNotification(t: Tables, n: Notification)
    requires Constraints(t)
    requires !HasKey(t.notifications, NotificationKey, n.id)
    ensures SaveOutcome(t, [Entry(NotificationRow(n), Added)]) ==
      if NotificationFits(n) then Success(t.(notifications := t.notifications + [n]))
      else Failure(ConstraintViolation)
  {
    var changes := [Entry(NotificationRow(n), Added)];
    var t1 := t.(notifications := t.notifications + [n]);
    assert ApplyAll(t, changes) == ApplyAll(t1, changes[1..]);
    KeysDistinctAppend(t.notifications, NotificationKey, n);
    if NotificationFits(n) {
      forall i | 0 <= i < |t1.notifications| ensures NotificationFits(t1.notifications[i]) {
        if i < |t.notifications| { assert t1.notifications[i] == t.notifications[i]; }
      }
    } else {
      assert t1.notifications[|t.notifications|] == n;
    }
  }

  /** Appending an OTP row with an unused key and a code of at most 10 characters commits. */
  lemma SaveAddedOtp(t: Tables, o: Otp)
    requires Constraints(t)
    requires !HasKey(t.otps, OtpKey, o.id) && |o.code| <= 10
    ensures SaveOutcome(t, [Entry(OtpRow(o), Added)]) == Success(t.(otps := t.otps + [o]))
  {
    var changes := [Entry(OtpRow(o), Added)];
    var t1 := t.(otps := t.otps + [o]);
    assert ApplyAll(t, changes) == ApplyAll(t1, changes[1..]);
    KeysDistinctAppend(t.otps, OtpKey, o);
    assert forall i :: 0 <= i < |t1.otps| ==> |t1.otps[i].code| <= 10 by {
      forall i | 0 <= i < |t1.otps| ensures |t1.otps[i].code| <= 10 {
        if i < |t.otps| { assert t1.otps[i] == t.otps[i]; }
      }
    }
  }

  /** Appending a medical record with an unused key for an existing patient commits. */
  lemma SaveAddedRecord(t: Tables, r: MedicalRecord)
    requires Constraints(t)
    requires !HasKey(t.records, RecordKey, r.id)
    requires HasKey(t.patients, PatientKey, r.patientId)
    ensures SaveOutcome(t, [Entry(RecordRow(r), Added)]) == Success(t.(records := t.records + [r]))
  {
    var changes := [Entry(RecordRow(r), Added)];
    var t1 := t.(records := t.records + [r]);
    assert ApplyAll(t, changes) == ApplyAll(t1, changes[1..]);
    KeysDistinctAppend(t.records, RecordKey, r);
    assert forall i :: 0 <= i < |t1.records| ==> HasKey(t1.patients, PatientKey, t1.records[i].patientId) by {
      forall i | 0 <= i < |t1.records| ensures HasKey(t1.patients, PatientKey, t1.records[i].patientId) {
        if i < |t.records| { assert t1.records[i] == t.records[i]; }
      }
    }
  }

  /** Marking a tracked OTP row modified commits when the row exists and keeps its code. */
  lemma SaveModifiedOtp(t: Tables, i: nat, o: Otp)
    requires Constraints(t)
    requires i < |t.otps| && t.otps[i].id == o.id && t.otps[i].code == o.code
    ensures SaveOutcome(t, [Entry(OtpRow(o), Modified)]) == Success(t.(otps := t.otps[i := o]))
  {
    var changes := [Entry(OtpRow(o), Modified)];
    assert OtpKey(t.otps[i]) == OtpKey(o);
    assert HasKey(t.otps, OtpKey, OtpKey(o));
    ReplaceKeyAt(t.otps, OtpKey, o, i);
    var t1 := t.(otps := t.otps[i := o]);
    assert ApplyAll(t, changes) == ApplyAll(t1, changes[1..]);
    KeysDistinctReplace(t.otps, OtpKey, o);
  }

  /** Marking a tracked consent row modified commits when it keeps its key and its patient. */
  lemma SaveModifiedConsent(t: Tables, i: nat, c: Consent)
    requires Constraints(t)
    requires i < |t.consents| && t.consents[i].id == c.id && t.consents[i].patientId == c.patientId
    ensures SaveOutcome(t, [Entry(ConsentRow(c), Modified)]) == Success(t.(consents := t.consents[i := c]))
  {
    var changes := [Entry(ConsentRow(c), Modified)];
    assert ConsentKey(t.consents[i]) == ConsentKey(c);
    assert HasKey(t.consents, ConsentKey, ConsentKey(c));
    ReplaceKeyAt(t.consents, ConsentKey, c, i);
    var t1 := t.(consents := t.consents[i := c]);
    assert ApplyAll(t, changes) == ApplyAll(t1, changes[1..]);
    KeysDistinctReplace(t.consents, ConsentKey, c);
    assert ConsentPatientsDistinct(t1.consents) by {
      forall a, b | 0 <= a < b < |t1.consents| ensures t1.consents[a].patientId != t1.consents[b].patientId {
        assert t1.consents[a].patientId == t.consents[a].patientId;
        assert t1.consents[b].patientId == t.consents[b].patientId;
      }
    }
    assert forall k :: 0 <= k < |t1.consents| ==> t1.consents[k].patientId == t.consents[k].patientId;
  }

  /** Marking a tracked notification row modified commits when the row exists and the new
      values fit their columns. */
  lemma SaveModifiedNotification(t: Tables, i: nat, n: Notification)
    requires Constraints(t)
    requires i < |t.notifications| && t.notifications[i].id == n.id
    requires NotificationFits(n)
    ensures SaveOutcome(t, [Entry(NotificationRow(n), Modified)])
      == Success(t.(notifications := t.notifications[i := n]))
  {
    var changes := [Entry(NotificationRow(n), Modified)];
    assert NotificationKey(t.notifications[i]) == NotificationKey(n);
    assert HasKey(t.notifications, NotificationKey, NotificationKey(n));
    ReplaceKeyAt(t.notifications, NotificationKey, n, i);
    var t1 := t.(notifications := t.notifications[i := n]);
    assert ApplyAll(t, changes) == ApplyAll(t1, changes[1..]);
    KeysDistinctReplace(t.notifications, NotificationKey, n);
    assert forall k :: 0 <= k < |t1.notifications| ==> NotificationFits(t1.notifications[k]);
  }

  /** Marking a tracked patient row modified commits when it keeps its key, its MRN and its
      column lengths. */
  lemma SaveModifiedPatient(t: Tables, i: nat, p: Patient)
    requires Constraints(t)
    requires i < |t.patients| && t.patients[i].id == p.id && t.patients[i].mrn == p.mrn
    requires PatientColumnsFit(p)
    ensures SaveOutcome(t, [Entry(PatientRow(p), Modified)]) == Success(t.(patients := t.patients[i := p]))
  {
    var changes := [Entry(PatientRow(p), Modified)];
    assert PatientKey(t.patients[i]) == PatientKey(p);
    assert HasKey(t.patients, PatientKey, PatientKey(p));
    ReplaceKeyAt(t.patients, PatientKey, p, i);
    var t1 := t.(patients := t.patients[i := p]);
    assert ApplyAll(t, changes) == ApplyAll(t1, changes[1..]);
    KeysDistinctReplace(t.patients, PatientKey, p);
    assert forall k :: 0 <= k < |t1.patients| ==> PatientKey(t1.patients[k]) == PatientKey(t.patients[k]);
    assert forall k :: HasKey(t.patients, PatientKey, k) ==> HasKey(t1.patients, PatientKey, k) by {
      forall k | HasKey(t.patients, PatientKey, k) ensures HasKey(t1.patients, PatientKey, k) {
        var j :| 0 <= j < |t.patients| && PatientKey(t.patients[j]) == k;
        assert PatientKey(t1.patients[j]) == k;
      }
    }
    assert MrnsDistinct(t1.patients) by {
      forall a, b | 0 <= a < b < |t1.patients| ensures t1.patients[a].mrn != t1.patients[b].mrn {
        assert t1.patients[a].mrn == t.patients[a].mrn;
        assert t1.patients[b].mrn == t.patients[b].mrn;
      }
    }
  }

  /** No row of `patients` has the MRN `mrn`. */
  predicate MrnUnused(patients: seq<Patient>, mrn: string) {
    forall i :: 0 <= i < |patients| ==> patients[i].mrn != mrn
  }

  /** The constraints hold after a new patient with a fitting row and an unused MRN is
      added together with its consent row. */
  lemma AddedPatientWithConsentFits(t: Tables, p: Patient, c: Consent)
    requires Constraints(t)
    requires !HasKey(t.patients, PatientKey, p.id) && !HasKey(t.consents, ConsentKey, c.id)
    requires c.patientId == p.id
    requires PatientColumnsFit(p) && MrnUnused(t.patients, p.mrn)
    ensures Constraints(t.(patients := t.patients + [p], consents := t.consents + [c]))
  {
    var t2 := t.(patients := t.patients + [p], consents := t.consents + [c]);
    AppendedPatientFits(t.patients, p);
    KeysDistinctAppend(t.consents, ConsentKey, c);
    assert forall i :: 0 <= i < |t.consents| ==> t.consents[i].patientId != p.id;
    assert ConsentPatientsDistinct(t2.consents) by {
      forall a, b | 0 <= a < b < |t2.consents| ensures t2.consents[a].patientId != t2.consents[b].patientId {
        if b == |t.consents| {
          assert t2.consents[b] == c;
          assert t2.consents[a] == t.consents[a];
        }
      }
    }
    assert forall i :: 0 <= i < |t2.consents| ==> HasKey(t2.patients, PatientKey, t2.consents[i].patientId) by {
      forall i | 0 <= i < |t2.consents| ensures HasKey(t2.patients, PatientKey, t2.consents[i].patientId) {
        if i < |t.consents| { assert t2.consents[i] == t.consents[i]; }
      }
    }
  }

  /** The patient-table constraints hold after appending a fitting row with a new id and an
      unused MRN, and every id present before is still present. */
  lemma AppendedPatientFits(ps: seq<Patient>, p: Patient)
    requires KeysDistinct(ps, PatientKey) && MrnsDistinct(ps)
    requires forall i :: 0 <= i < |ps| ==> PatientColumnsFit(ps[i])
    requires !HasKey(ps, PatientKey, p.id) && PatientColumnsFit(p) && MrnUnused(ps, p.mrn)
    ensures var qs := ps + [p];
      && KeysDistinct(qs, PatientKey) && MrnsDistinct(qs)
      && (forall i :: 0 <= i < |qs| ==> PatientColumnsFit(qs[i]))
      && HasKey(qs, PatientKey, p.id)
      && (forall k :: HasKey(ps, PatientKey, k) ==> HasKey(qs, PatientKey, k))
  {
    var qs := ps + [p];
    assert qs[|ps|] == p;
    KeysDistinctAppend(ps, PatientKey, p);
    forall k | HasKey(ps, PatientKey, k) ensures HasKey(qs, PatientKey, k) {
      var j :| 0 <= j < |ps| && PatientKey(ps[j]) == k;
      assert PatientKey(qs[j]) == k;
    }
    forall a, b | 0 <= a < b < |qs| ensures qs[a].mrn != qs[b].mrn {
      if b == |ps| {
        assert qs[a] == ps[a];
      }
    }
    forall i | 0 <= i < |qs| ensures PatientColumnsFit(qs[i]) {
      if i < |ps| { assert qs[i] == ps[i]; }
    }
  }

  /** Adding a new patient together with its consent row commits exactly when the MRN is not
      taken and the patient's columns fit. */
  lemma SaveAddedPatientWithConsent(t: Tables, p: Patient, c: Consent)
    requires Constraints(t)
    requires !HasKey(t.patients, PatientKey, p.id) && !HasKey(t.consents, ConsentKey, c.id)
    requires c.patientId == p.id
    ensures SaveOutcome(t, [Entry(PatientRow(p), Added), Entry(ConsentRow(c), Added)]) ==
      if PatientColumnsFit(p) && MrnUnused(t.patients, p.mrn)
      then Success(t.(patients := t.patients + [p], consents := t.consents + [c]))
      else Failure(ConstraintViolation)
  {
    var changes := [Entry(PatientRow(p), Added), Entry(ConsentRow(c), Added)];
    var t1 := t.(patients := t.patients + [p]);
    var t2 := t1.(consents := t.consents + [c]);
    assert ApplyAll(t, changes) == ApplyAll(t1, changes[1..]);
    assert ApplyAll(t1, changes[1..]) == ApplyAll(t2, changes[2..]);
    assert AppendOnlyRespected(changes);
    assert t2.patients[|t.patients|] == p;
    if PatientColumnsFit(p) && MrnUnused(t.patients, p.mrn) {
      AddedPatientWithConsentFits(t, p, c);
    } else if !PatientColumnsFit(p) {
      assert !Constraints(t2);
    } else {
      var j :| 0 <= j < |t.patients| && t.patients[j].mrn == p.mrn;
      assert t2.patients[j] == t.patients[j];
      assert !MrnsDistinct(t2.patients);
    }
  }

  // ---------------------------------------------------------------------------------------
  // Lookups the services and controllers perform

  /** `FirstOrDefault(x => x.Id == id)` / `FindAsync(id)` on `Patients`. */
  function FindPatient(patients: seq<Patient>, id: Guid): (r: Option<nat>)
    ensures r.Some? ==> r.value < |patients| && patients[r.value].id == id
    ensures r.None? <==> !HasKey(patients, PatientKey, id)
  {
    if patients == [] then None
    else if patients[0].id == id then Some(0)
    else
      match FindPatient(patients[1..], id)
      case Some(k) => Some(k + 1)
      case None =>
        assert !HasKey(patients, PatientKey, id) by {
          forall i | 0 <= i < |patients| ensures PatientKey(patients[i]) != id {
            if i > 0 { assert patients[i] == patients[1..][i - 1]; }
          }
        }
        None
  }

  /** `FirstOrDefault(p => p.Mrn == mrn)` on `Patients`. */
  function FindPatientByMrn(patients: seq<Patient>, mrn: string): (r: Option<nat>)
    ensures r.Some? ==> r.value < |patients| && patients[r.value].mrn == mrn
    ensures r.None? <==> MrnUnused(patients, mrn)
  {
    if patients == [] then None
    else if patients[0].mrn == mrn then Some(0)
    else
      match FindPatientByMrn(patients[1..], mrn)
      case Some(k) => Some(k + 1)
      case None =>
        assert forall i :: 0 <= i < |patients| ==> patients[i].mrn != mrn by {
          forall i | 0 <= i < |patients| ensures patients[i].mrn != mrn {
            if i > 0 { assert patients[i] == patients[1..][i - 1]; }
          }
        }
        None
  }

  /** `SingleOrDefault(x => x.PatientId == patientId)` on `Consents`: the unique index leaves
      at most one candidate, so the first is the only one. */
  function FindConsent(consents: seq<Consent>, patientId: Guid): (r: Option<nat>)
    ensures r.Some? ==> r.value < |consents| && consents[r.value].patientId == patientId
    ensures r.None? <==> forall i :: 0 <= i < |consents| ==> consents[i].patientId != patientId
  {
    if consents == [] then None
    else if consents[0].patientId == patientId then Some(0)
    else
      match FindConsent(consents[1..], patientId)
      case Some(k) => Some(k + 1)
      case None =>
        assert forall i :: 0 <= i < |consents| ==> consents[i].patientId != patientId by {
          forall i | 0 <= i < |consents| ensures consents[i].patientId != patientId {
            if i > 0 { assert consents[i] == consents[1..][i - 1]; }
          }
        }
        None
  }

  /** The consent row of a patient, as a value. */
  function ConsentOf(t: Tables, patientId: Guid): Option<Consent> {
    match FindConsent(t.consents, patientId)
    case Some(i) => Some(t.consents[i])
    case None => None
  }

  /** With at most one consent row per patient, the row found is the patient's only row. */
  lemma ConsentOfUnique(t: Tables, patientId: Guid, c: Consent)
    requires ConsentPatientsDistinct(t.consents)
    ensures ConsentOf(t, patientId) == Some(c) <==> c in t.consents && c.patientId == patientId
  {
    if c in t.consents && c.patientId == patientId {
      var j :| 0 <= j < |t.consents| && t.consents[j] == c;
      var i := FindConsent(t.consents, patientId).value;
      if i != j {
        if i < j { } else { }
        assert false;
      }
    }
  }

  // ---------------------------------------------------------------------------------------
  // The context

  class AppDb {
    /** The committed contents of the database. */
    var tables: Tables
    /** The change tracker's entries that the next save will commit. */
    var pending: seq<Entry>

    ghost predicate Valid()
      reads this
    {
      Constraints(tables)
    }

    constructor ()
      ensures Valid() && tables == EmptyTables && pending == []
    {
      tables := EmptyTables;
      pending := [];
    }

    /** `DbSet.Add`: the entity becomes tracked as Added. */
    method Add(e: Entity)
      modifies this
      ensures tables == old(tables) && pending == old(pending) + [Entry(e, Added)]
    {
      pending := pending + [Entry(e, Added)];
    }

    /** Assigning a property of a tracked entity: the change tracker marks it Modified. */
    method MarkModified(e: Entity)
      modifies this
      ensures tables == old(tables) && pending == old(pending) + [Entry(e, Modified)]
    {
      pending := pending + [Entry(e, Modified)];
    }

    /** `EnforceAppendOnly`: passes exactly when no pending entry modifies or deletes a
        medical record or an audit row. */
    method EnforceAppendOnly() returns (ok: bool)
      ensures ok <==> AppendOnlyRespected(pending)
    {
      var i := 0;
      while i < |pending|
        invariant 0 <= i <= |pending|
        invariant forall k :: 0 <= k < i ==> !BreaksAppendOnly(pending[k])
      {
        var entry := pending[i];
        if entry.entity.RecordRow? || entry.entity.AuditRow? {
          if entry.state == Modified || entry.state == Deleted {
            return false;
          }
        }
        i := i + 1;
      }
      return true;
    }

    /** `base.SaveChanges`: commit the pending entries as one transaction. On success they are
        accepted and the tracker is empty; on failure nothing is committed and the entries stay
        tracked. */
    method BaseSaveChanges() returns (r: Result<nat, SaveError>)
      requires Valid()
      modifies this
      ensures Valid()
      ensures match Commit(old(tables), old(pending))
        case Success(t) => r == Success(|old(pending)|) && tables == t && pending == []
        case Failure(e) => r == Failure(e) && tables == old(tables) && pending == old(pending)
    {
      match Commit(tables, pending)
      case Success(t) =>
        r := Success(|pending|);
        tables, pending := t, [];
      case Failure(e) =>
        r := Failure(e);
    }

    /** The `SaveChanges` override. */
    method SaveChanges() returns (r: Result<nat, SaveError>)
      requires Valid()
      modifies this
      ensures Valid()
      ensures match SaveOutcome(old(tables), old(pending))
        case Success(t) => r == Success(|old(pending)|) && tables == t && pending == []
        case Failure(e) => r == Failure(e) && tables == old(tables) && pending == old(pending)
    {
      var ok := EnforceAppendOnly();
      if !ok {
        return Failure(AppendOnlyViolation);
      }
      r := BaseSaveChanges();
    }

    /** The `SaveChangesAsync` override: the same check before the same commit. */
    method SaveChangesAsync() returns (r: Result<nat, SaveError>)
      requires Valid()
      modifies this
      ensures Valid()
      ensures match SaveOutcome(old(tables), old(pending))
        case Success(t) => r == Success(|old(pending)|) && tables == t && pending == []
        case Failure(e) => r == Failure(e) && tables == old(tables) && pending == old(pending)
    {
      var ok := EnforceAppendOnly();
      if !ok {
        return Failure(AppendOnlyViolation);
      }
      r := BaseSaveChanges();
    }
  }

  /** Tracking a new patient and its consent row and saving both in one `SaveChangesAsync`:
      both rows are committed, or neither when the MRN is taken or a column does not fit. */
  method AddPatientWithConsent(db: AppDb, p: Patient, c: Consent) returns (saved: Result<nat, SaveError>)
    requires db.Valid() && db.pending == []
    requires !HasKey(db.tables.patients, PatientKey, p.id) && !HasKey(db.tables.consents, ConsentKey, c.id)
    requires c.patientId == p.id
    modifies db
    ensures db.Valid()
    ensures if PatientColumnsFit(p) && MrnUnused(old(db.tables.patients), p.mrn)
      then saved.Success? && db.pending == []
           && db.tables == old(db.tables).(patients := old(db.tables.patients) + [p], consents := old(db.tables.consents) + [c])
      else saved == Failure(ConstraintViolation) && db.tables == old(db.tables)
           && db.pending == [Entry(PatientRow(p), Added), Entry(ConsentRow(c), Added)]
  {
    db.Add(PatientRow(p));
    db.Add(ConsentRow(c));
    assert db.pending == [Entry(PatientRow(p), Added), Entry(ConsentRow(c), Added)];
    SaveAddedPatientWithConsent(db.tables, p, c);
    saved := db.SaveChangesAsync();
  }
}
