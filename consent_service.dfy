/** `ConsentService.CanClinicalStaffViewAsync`: may a member of the clinical staff see a
    patient's records? The answer depends on the actor's roles and on the patient's consent
    row only, and reading the row changes nothing.

    The roles are tested in a fixed order, and the first that applies decides: Admin allows
    outright; otherwise a patient without a consent row is refused; otherwise a Doctor gets
    `AllowDoctors`, then a Nurse gets `AllowNurses`; anyone else is refused. Role names are
    compared ignoring case.
 */
module ConsentService {
  import opened Base
  import opened Text
  import opened Guids
  import opened Entities
  import AppRoles
  import Store

  /** The decision on the de-duplicated roles and the consent row found, if any. */
  function Decide(actorRoles: seq<string>, consent: Option<Consent>): bool {
    var roles := DistinctIgnoreCase(actorRoles);
    if ContainsIgnoreCase(roles, AppRoles.Admin) then true
    else if consent.None? then false
    else if ContainsIgnoreCase(roles, AppRoles.Doctor) then consent.value.allowDoctors
    else if ContainsIgnoreCase(roles, AppRoles.Nurse) then consent.value.allowNurses
    else false
  }

  /** `CanClinicalStaffViewAsync(actorUserId, actorRoles, patientId)` against the committed
      tables. */
  function CanClinicalStaffView(actorUserId: Guid, actorRoles: seq<string>, patientId: Guid, t: Store.Tables): bool {
    Decide(actorRoles, Store.ConsentOf(t, patientId))
  }

  /** The policy stated as one formula over the actor's roles as given. */
  predicate Permits(roles: seq<string>, consent: Option<Consent>) {
    || ContainsIgnoreCase(roles, AppRoles.Admin)
    || (consent.Some? && ContainsIgnoreCase(roles, AppRoles.Doctor) && consent.value.allowDoctors)
    || (consent.Some? && !ContainsIgnoreCase(roles, AppRoles.Doctor)
        && ContainsIgnoreCase(roles, AppRoles.Nurse) && consent.value.allowNurses)
  }

  /** The early-return chain decides exactly the policy formula. */
  lemma DecideIsPermits(roles: seq<string>, consent: Option<Consent>)
    ensures Decide(roles, consent) == Permits(roles, consent)
  {
  }

  /** An Admin, in any letter case, is allowed whether or not a consent row exists. */
  lemma AdminAlwaysAllowed(actorUserId: Guid, roles: seq<string>, patientId: Guid, t: Store.Tables)
    requires ContainsIgnoreCase(roles, AppRoles.Admin)
    ensures CanClinicalStaffView(actorUserId, roles, patientId, t)
  {
  }

  /** A non-admin is refused for a patient that has no consent row, whatever the roles. */
  lemma NoConsentRowDenies(actorUserId: Guid, roles: seq<string>, patientId: Guid, t: Store.Tables)
    requires !ContainsIgnoreCase(roles, AppRoles.Admin)
    requires forall i :: 0 <= i < |t.consents| ==> t.consents[i].patientId != patientId
    ensures !CanClinicalStaffView(actorUserId, roles, patientId, t)
  {
  }

  /** A Doctor who is not an Admin gets exactly `AllowDoctors`, also when also a Nurse. */
  lemma DoctorJudgedByAllowDoctors(actorUserId: Guid, roles: seq<string>, patientId: Guid, t: Store.Tables, c: Consent)
    requires Store.ConsentPatientsDistinct(t.consents)
    requires c in t.consents && c.patientId == patientId
    requires !ContainsIgnoreCase(roles, AppRoles.Admin) && ContainsIgnoreCase(roles, AppRoles.Doctor)
    ensures CanClinicalStaffView(actorUserId, roles, patientId, t) == c.allowDoctors
  {
    Store.ConsentOfUnique(t, patientId, c);
  }

  /** A Nurse who is neither Admin nor Doctor gets exactly `AllowNurses`. */
  lemma NurseJudgedByAllowNurses(actorUserId: Guid, roles: seq<string>, patientId: Guid, t: Store.Tables, c: Consent)
    requires Store.ConsentPatientsDistinct(t.consents)
    requires c in t.consents && c.patientId == patientId
    requires !ContainsIgnoreCase(roles, AppRoles.Admin) && !ContainsIgnoreCase(roles, AppRoles.Doctor)
    requires ContainsIgnoreCase(roles, AppRoles.Nurse)
    ensures CanClinicalStaffView(actorUserId, roles, patientId, t) == c.allowNurses
  {
    Store.ConsentOfUnique(t, patientId, c);
  }

  /** Roles holding none of Admin, Doctor and Nurse are always refused. */
  lemma OtherRolesDenied(actorUserId: Guid, roles: seq<string>, patientId: Guid, t: Store.Tables)
    requires !ContainsIgnoreCase(roles, AppRoles.Admin)
    requires !ContainsIgnoreCase(roles, AppRoles.Doctor) && !ContainsIgnoreCase(roles, AppRoles.Nurse)
    ensures !CanClinicalStaffView(actorUserId, roles, patientId, t)
  {
  }

  /** Who asks does not matter: no actor, author or assigned doctor is treated specially. */
  lemma ActorIrrelevant(u1: Guid, u2: Guid, roles: seq<string>, patientId: Guid, t: Store.Tables)
    ensures CanClinicalStaffView(u1, roles, patientId, t) == CanClinicalStaffView(u2, roles, patientId, t)
  {
  }

  /** Only the patient's own consent row matters: any change elsewhere in the tables leaves
      the decision as it was. */
  lemma OnlyOwnConsentMatters(u: Guid, roles: seq<string>, patientId: Guid, t1: Store.Tables, t2: Store.Tables)
    requires Store.ConsentOf(t1, patientId) == Store.ConsentOf(t2, patientId)
    ensures CanClinicalStaffView(u, roles, patientId, t1) == CanClinicalStaffView(u, roles, patientId, t2)
  {
  }

  /** No two of the three role names the decision tests are equal ignoring case. */
  lemma RoleNamesDiffer()
    ensures !EqualsIgnoreCase(AppRoles.Nurse, AppRoles.Admin)
    ensures !EqualsIgnoreCase(AppRoles.Nurse, AppRoles.Doctor)
    ensures !EqualsIgnoreCase(AppRoles.Doctor, AppRoles.Admin)
  {
    assert FoldCase(AppRoles.Admin)[0] == 'A';
    assert FoldCase(AppRoles.Doctor)[0] == 'D';
    assert FoldCase(AppRoles.Nurse)[0] == 'N';
  }

  /** The decision is not monotone in the roles: because Doctor is tested before Nurse, a
      Nurse who is also made a Doctor is judged by `AllowDoctors` and can lose access. */
  lemma DoctorRoleOverridesNurse(c: Consent)
    requires !c.allowDoctors && c.allowNurses
    ensures Decide([AppRoles.Nurse], Some(c))
    ensures !Decide([AppRoles.Nurse, AppRoles.Doctor], Some(c))
  {
    RoleNamesDiffer();
    var d := DistinctIgnoreCase([AppRoles.Nurse, AppRoles.Doctor]);
    assert EqualsIgnoreCase([AppRoles.Nurse, AppRoles.Doctor][1], AppRoles.Doctor);
    assert ContainsIgnoreCase(d, AppRoles.Doctor);
    assert ContainsIgnoreCase([AppRoles.Nurse], AppRoles.Nurse) by {
      assert EqualsIgnoreCase([AppRoles.Nurse][0], AppRoles.Nurse);
    }
  }
}
