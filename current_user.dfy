/** The claim type names the core reads and writes. */
module ClaimNames {
  /** `ClaimTypes.NameIdentifier`. */
  const NameIdentifier: string := "http://schemas.xmlsoap.org/ws/2005/05/identity/claims/nameidentifier"
  /** `ClaimTypes.Email`. */
  const EmailAddress: string := "http://schemas.xmlsoap.org/ws/2005/05/identity/claims/emailaddress"
  /** `ClaimTypes.Role`. */
  const Role: string := "http://schemas.microsoft.com/ws/2008/06/identity/claims/role"
  /** `JwtRegisteredClaimNames.Sub`, `.Email` and `.Jti`. */
  const Sub: string := "sub"
  const Email: string := "email"
  const Jti: string := "jti"
  /** `JwtClaims.PatientId`; its declaration is not part of this model, and the name is taken
      to be this one. */
  const PatientId: string := "patient_id"
}

/** `CurrentUserService`: who the caller of a request is, read off the claims of the
    authenticated principal. */
module CurrentUser {
  import opened Base
  import opened Text
  import Guids
  import ClaimNames

  datatype Claim = Claim(kind: string, value: string)

  datatype Principal = Principal(claims: seq<Claim>)

  /** `new ClaimsPrincipal(new ClaimsIdentity())`. */
  const Anonymous: Principal := Principal([])

  /** What the core reads of an HTTP request: the principal the authentication middleware
      attached, the remote address and the User-Agent header (empty when absent). */
  datatype RequestContext = RequestContext(user: Principal, remoteIp: Option<string>, userAgent: string)

  /** `Principal`: the request's user, or an empty principal when there is no request. */
  function PrincipalOf(ctx: Option<RequestContext>): Principal {
    match ctx
    case Some(c) => c.user
    case None => Anonymous
  }

  /** Position of the first claim whose type equals `kind` ignoring case (as
      `ClaimsIdentity.FindFirst` compares types), or `|claims|` when there is none. */
  function FirstOfKind(claims: seq<Claim>, kind: string): (k: nat)
    ensures k <= |claims|
    ensures k < |claims| ==> EqualsIgnoreCase(claims[k].kind, kind)
    ensures forall i :: 0 <= i < k ==> !EqualsIgnoreCase(claims[i].kind, kind)
  {
    if claims == [] then 0
    else if EqualsIgnoreCase(claims[0].kind, kind) then 0
    else 1 + FirstOfKind(claims[1..], kind)
  }

  /** `FindFirstValue(kind)`: the value of the first claim of that type, or null. */
  function FindFirstValue(p: Principal, kind: string): (r: Option<string>)
    ensures r.None? <==> forall i :: 0 <= i < |p.claims| ==> !EqualsIgnoreCase(p.claims[i].kind, kind)
    ensures r.Some? ==>
      exists i :: 0 <= i < |p.claims| && EqualsIgnoreCase(p.claims[i].kind, kind) &&
                  p.claims[i].value == r.value &&
                  forall j :: 0 <= j < i ==> !EqualsIgnoreCase(p.claims[j].kind, kind)
  {
    var k := FirstOfKind(p.claims, kind);
    if k < |p.claims| then Some(p.claims[k].value) else None
  }

  /** `a ?? b` on nullable strings. */
  function OrElse(a: Option<string>, b: Option<string>): Option<string> {
    if a.Some? then a else b
  }

  /** `Guid.TryParse` on a nullable string: null does not parse. */
  function ParseGuid(s: Option<string>): Option<Guids.Guid> {
    match s
    case Some(v) => Guids.TryParse(v)
    case None => None
  }

  /** `UserId`: the NameIdentifier claim, else the `sub` claim, when it parses as a Guid. */
  function UserId(p: Principal): Option<Guids.Guid> {
    ParseGuid(OrElse(FindFirstValue(p, ClaimNames.NameIdentifier), FindFirstValue(p, ClaimNames.Sub)))
  }

  /** `Email`: the Email claim, else the `email` claim, else null. */
  function Email(p: Principal): Option<string> {
    OrElse(FindFirstValue(p, ClaimNames.EmailAddress), FindFirstValue(p, ClaimNames.Email))
  }

  /** `PatientId`: the patient-id claim when it parses as a Guid. */
  function PatientId(p: Principal): Option<Guids.Guid> {
    ParseGuid(FindFirstValue(p, ClaimNames.PatientId))
  }

  /** Some claim of exactly the role type has the value `x`. */
  predicate HasRoleClaim(claims: seq<Claim>, x: string) {
    exists i :: 0 <= i < |claims| && claims[i].kind == ClaimNames.Role && claims[i].value == x
  }

  /** The values of the claims whose type is exactly the role type, in claim order. */
  function RoleValues(claims: seq<Claim>): (r: seq<string>)
    ensures forall x :: x in r <==> HasRoleClaim(claims, x)
  {
    if claims == [] then []
    else
      var rest := RoleValues(claims[1..]);
      assert forall x :: HasRoleClaim(claims, x) <==>
          (claims[0].kind == ClaimNames.Role && claims[0].value == x) || HasRoleClaim(claims[1..], x) by {
        forall x ensures HasRoleClaim(claims, x) <==>
            (claims[0].kind == ClaimNames.Role && claims[0].value == x) || HasRoleClaim(claims[1..], x) {
          if HasRoleClaim(claims, x) && !(claims[0].kind == ClaimNames.Role && claims[0].value == x) {
            var i :| 0 <= i < |claims| && claims[i].kind == ClaimNames.Role && claims[i].value == x;
            assert claims[1..][i - 1] == claims[i];
          }
          if HasRoleClaim(claims[1..], x) {
            var i :| 0 <= i < |claims[1..]| && claims[1..][i].kind == ClaimNames.Role && claims[1..][i].value == x;
            assert claims[i + 1] == claims[1..][i];
          }
        }
      }
      if claims[0].kind == ClaimNames.Role then [claims[0].value] + rest else rest
  }

  /** `Roles`: the role-claim values, with duplicates ignoring case removed. */
  function Roles(p: Principal): (r: seq<string>)
    ensures PairwiseDistinctIgnoreCase(r)
    ensures forall x :: ContainsIgnoreCase(r, x) <==> ContainsIgnoreCase(RoleValues(p.claims), x)
  {
    DistinctIgnoreCase(RoleValues(p.claims))
  }

  /** `IsInRole(role)`. */
  predicate IsInRole(p: Principal, role: string) {
    ContainsIgnoreCase(Roles(p), role)
  }

  /** The caller holds `role` exactly when some role claim names it, ignoring case. */
  lemma IsInRoleMeaning(p: Principal, role: string)
    ensures IsInRole(p, role) <==>
      exists i :: 0 <= i < |p.claims| && p.claims[i].kind == ClaimNames.Role &&
                  EqualsIgnoreCase(p.claims[i].value, role)
  {
    var vs := RoleValues(p.claims);
    if IsInRole(p, role) {
      var k :| 0 <= k < |vs| && EqualsIgnoreCase(vs[k], role);
      assert vs[k] in vs;
      var i :| 0 <= i < |p.claims| && p.claims[i].kind == ClaimNames.Role && p.claims[i].value == vs[k];
    }
    if exists i :: 0 <= i < |p.claims| && p.claims[i].kind == ClaimNames.Role && EqualsIgnoreCase(p.claims[i].value, role) {
      var i :| 0 <= i < |p.claims| && p.claims[i].kind == ClaimNames.Role && EqualsIgnoreCase(p.claims[i].value, role);
      var v := p.claims[i].value;
      assert v in vs;
      var k :| 0 <= k < |vs| && vs[k] == v;
      assert ContainsIgnoreCase(vs, role);
    }
  }

  /** Without a request there is no caller: no id, no email, no patient and no roles. */
  lemma NoRequestIsAnonymous()
    ensures UserId(PrincipalOf(None)) == None && Email(PrincipalOf(None)) == None
    ensures PatientId(PrincipalOf(None)) == None && Roles(PrincipalOf(None)) == []
  {
  }

  /** The NameIdentifier claim wins over `sub`; `sub` is read only when there is none. */
  lemma UserIdFromSub(p: Principal, g: Guids.Guid)
    requires FindFirstValue(p, ClaimNames.NameIdentifier) == None
    requires FindFirstValue(p, ClaimNames.Sub) == Some(Guids.ToString(g))
    ensures UserId(p) == Some(g)
  {
    Guids.ParseToString(g);
  }

  /** A NameIdentifier claim that is not a Guid leaves the caller without an id, even when a
      valid `sub` claim follows. */
  lemma NameIdentifierShadowsSub(p: Principal, s: string)
    requires FindFirstValue(p, ClaimNames.NameIdentifier) == Some(s)
    requires Guids.TryParse(s) == None
    ensures UserId(p) == None
  {
  }
}

/** The route-level authorization policies. `RequireRole` is satisfied by a role claim whose
    value equals one of the listed names exactly: unlike `CurrentUser.IsInRole`, it is
    case-sensitive in the role name (the claim type is compared ignoring case). */
module Policies {
  import opened Text
  import ClaimNames
  import AppRoles
  import CurrentUser

  /** `ClaimsPrincipal.IsInRole(role)`. */
  predicate HasRole(p: CurrentUser.Principal, role: string) {
    exists i :: 0 <= i < |p.claims| && EqualsIgnoreCase(p.claims[i].kind, ClaimNames.Role) && p.claims[i].value == role
  }

  predicate AdminOnly(p: CurrentUser.Principal) { HasRole(p, AppRoles.Admin) }
  /** ClinicalStaff admits Doctors and Nurses only; an Admin holding neither is refused. */
  predicate ClinicalStaff(p: CurrentUser.Principal) { HasRole(p, AppRoles.Doctor) || HasRole(p, AppRoles.Nurse) }
  predicate DoctorOnly(p: CurrentUser.Principal) { HasRole(p, AppRoles.Doctor) }
  predicate NurseOnly(p: CurrentUser.Principal) { HasRole(p, AppRoles.Nurse) }
  predicate PatientOnly(p: CurrentUser.Principal) { HasRole(p, AppRoles.Patient) }
  predicate ReceptionistOnly(p: CurrentUser.Principal) { HasRole(p, AppRoles.Receptionist) }
  predicate FrontDesk(p: CurrentUser.Principal) { HasRole(p, AppRoles.Admin) || HasRole(p, AppRoles.Receptionist) }

  /** A role claim of exactly the role type that passes a policy also passes the service's
      case-insensitive membership test. */
  lemma PolicyRoleIsServiceRole(p: CurrentUser.Principal, role: string, i: nat)
    requires i < |p.claims| && p.claims[i].kind == ClaimNames.Role && p.claims[i].value == role
    ensures HasRole(p, role) && CurrentUser.IsInRole(p, role)
  {
    assert EqualsIgnoreCase(p.claims[i].kind, ClaimNames.Role);
    CurrentUser.IsInRoleMeaning(p, role);
  }

  /** The service's membership test is wider than the policy's: "admin" passes `IsInRole`
      for Admin but not the AdminOnly policy. */
  lemma LowerCaseAdminPassesOnlyTheService()
    ensures var p := CurrentUser.Principal([CurrentUser.Claim(ClaimNames.Role, "admin")]);
      CurrentUser.IsInRole(p, AppRoles.Admin) && !AdminOnly(p)
  {
    var p := CurrentUser.Principal([CurrentUser.Claim(ClaimNames.Role, "admin")]);
    assert p.claims[0].value != AppRoles.Admin;
    CurrentUser.IsInRoleMeaning(p, AppRoles.Admin);
    assert EqualsIgnoreCase("admin", AppRoles.Admin) by {
      assert FoldCase("admin") == "ADMIN";
      assert FoldCase(AppRoles.Admin) == "ADMIN";
    }
  }
}
