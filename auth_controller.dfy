/** `AuthController`: sign-in by password and by one-time code, and account creation.

    The audit entries of the anonymous actions describe whatever principal the request
    carries, usually none; the entry's patient is the account's.
 */
module AuthController {
  import opened Base
  import opened Text
  import opened Guids
  import opened Entities
  import opened Store
  import opened Http
  import CurrentUser
  import Policies
  import Identity
  import AuditService
  import OtpService
  import JwtTokenService

  datatype LoginRequest = LoginRequest(email: string, password: string)

  datatype AuthResponse = AuthResponse(
    accessToken: string, expiresAt: Instant, email: string, roles: seq<string>, patientId: Option<Guid>)

  /** The token content issued to `user` holding `roles` at `now`, with token id `jti`. */
  function Issued(options: JwtTokenService.JwtOptions, user: ApplicationUser, roles: seq<string>,
                  now: Instant, jti: Guid): JwtTokenService.SecurityToken
  {
    JwtTokenService.SecurityToken(
      options.issuer, options.audience,
      JwtTokenService.IssuedClaims(user.id, user.email.GetOr(""), jti, user.patientId, roles),
      now, now + Minutes(options.accessTokenMinutes))
  }

  /** The answer to a successful sign-in of `user`. */
  function Answer(options: JwtTokenService.JwtOptions, codec: JwtTokenService.TokenCodec, user: ApplicationUser,
                  roles: seq<string>, now: Instant, jti: Guid): AuthResponse
  {
    AuthResponse(codec.write(Issued(options, user, roles, now, jti), options.signingKey),
                 now + Minutes(options.accessTokenMinutes), user.email.GetOr(""), roles, user.patientId)
  }

  /** Issue the token for `user`, log the sign-in and answer. */
  method SignIn(db: AppDb, ctx: CurrentUser.RequestContext, options: JwtTokenService.JwtOptions,
                codec: JwtTokenService.TokenCodec, user: ApplicationUser, roles: seq<string>,
                action: string, resource: string, now: Instant, jti: Guid) returns (r: Response<AuthResponse>)
    requires db.Valid() && db.pending == []
    modifies db
    ensures db.Valid()
    ensures var entry := AuditService.NewEntry(Some(ctx), action, resource, user.patientId, now);
      if AuditFits(entry)
      then r == Ok(Answer(options, codec, user, roles, now, jti)) && db.pending == []
           && db.tables == old(db.tables).(auditLogs := old(db.tables.auditLogs) + [entry])
      else r == Fault(SaveFailed(ConstraintViolation)) && db.tables == old(db.tables)
  {
    var token, expiresAt := JwtTokenService.CreateAccessToken(options, codec, user.id, user.email.GetOr(""),
                                                          user.patientId, roles, now, jti);
    var answer := AuthResponse(token, expiresAt, user.email.GetOr(""), roles, user.patientId);
    assert answer == Answer(options, codec, user, roles, now, jti);
    var logged := AuditService.LogAsync(db, Some(ctx), action, resource, user.patientId, now);
    if logged.Failure? {
      return Fault(SaveFailed(logged.error));
    }
    r := Ok(answer);
  }

  /** The token a sign-in answers with authenticates its holder, until it expires, as the
      account that signed in: its id, its patient and its roles (without case duplicates). */
  lemma AnswerAuthenticatesTheUser(options: JwtTokenService.JwtOptions, codec: JwtTokenService.TokenCodec,
                                   user: ApplicationUser, roles: seq<string>, now: Instant, jti: Guid, later: Instant)
    requires JwtTokenService.Lawful(codec) && options.accessTokenMinutes >= 0
    requires now <= later <= now + Minutes(options.accessTokenMinutes)
    ensures var p := JwtTokenService.ValidateToken(options, codec, Answer(options, codec, user, roles, now, jti).accessToken, later);
      && p.Some?
      && CurrentUser.UserId(p.value) == Some(user.id)
      && CurrentUser.PatientId(p.value) == user.patientId
      && CurrentUser.Roles(p.value) == DistinctIgnoreCase(roles)
  {
    var t := Issued(options, user, roles, now, jti);
    assert Answer(options, codec, user, roles, now, jti).accessToken == codec.write(t, options.signingKey);
    JwtTokenService.IssuedTokenLifetime(options, codec, user.id, user.email.GetOr(""), user.patientId, roles, now, jti, later);
    assert JwtTokenService.ValidateToken(options, codec, codec.write(t, options.signingKey), later) == Some(CurrentUser.Principal(t.claims));
    JwtTokenService.ClaimsReadBack(user.id, user.email.GetOr(""), jti, user.patientId, roles);
  }

  // ---------------------------------------------------------------------------------------
  // Login

  /** `POST api/auth/login` (anonymous). `passwordOk` is the outcome of the password check. */
  method Login(db: AppDb, identity: Identity.UserStore, ctx: CurrentUser.RequestContext,
               options: JwtTokenService.JwtOptions, codec: JwtTokenService.TokenCodec,
               request: LoginRequest, passwordOk: bool, now: Instant, jti: Guid) returns (r: Response<AuthResponse>)
    requires db.Valid() && db.pending == []
    modifies db
    ensures db.Valid()
    ensures match Identity.FindByEmail(identity.users, request.email)
      case None => r == Unauthorized && db.tables == old(db.tables) && db.pending == []
      case Some(user) =>
        var roles := Identity.RolesOf(identity.userRoles, user.id);
        var entry := AuditService.NewEntry(Some(ctx), "AUTH_LOGIN", "auth/login", user.patientId, now);
        if !passwordOk then r == Unauthorized && db.tables == old(db.tables) && db.pending == []
        else if AuditFits(entry)
        then r == Ok(Answer(options, codec, user, roles, now, jti)) && db.pending == []
             && db.tables == old(db.tables).(auditLogs := old(db.tables.auditLogs) + [entry])
        else r == Fault(SaveFailed(ConstraintViolation)) && db.tables == old(db.tables)
  {
    var user := Identity.FindByEmail(identity.users, request.email);
    if user.None? {
      return Unauthorized;
    }
    if !passwordOk {
      return Unauthorized;
    }
    var roles := Identity.RolesOf(identity.userRoles, user.value.id);
    r := SignIn(db, ctx, options, codec, user.value, roles, "AUTH_LOGIN", "auth/login", now, jti);
  }

  // ---------------------------------------------------------------------------------------
  // Register

  datatype RegisterRequest = RegisterRequest(email: string, password: string, role: string, patientId: Option<Guid>)

  function NewUser(userId: Guid, request: RegisterRequest): ApplicationUser {
    ApplicationUser(userId, Some(request.email), request.patientId)
  }

  /** `POST api/auth/register` (AdminOnly); `userId` is the new account's id. Whether the
      email is well formed and whether each identity update commits are inputs. A refused
      account is a BadRequest; a create whose save does not commit throws past the
      `Succeeded` check and is a server error. A role that does not exist is found only after
      the account was created, and the account stays, holding no role. */
  method Register(db: AppDb, identity: Identity.UserStore, ctx: CurrentUser.RequestContext,
                  request: RegisterRequest, userId: Guid, emailWellFormed: bool,
                  commitCreate: bool, commitAdd: bool, now: Instant) returns (r: Response<()>)
    requires Policies.AdminOnly(ctx.user)
    requires db.Valid() && db.pending == [] && identity.Valid()
    requires forall i :: 0 <= i < |identity.users| ==> identity.users[i].id != userId
    modifies db, identity
    ensures db.Valid() && identity.Valid() && identity.roles == old(identity.roles)
    ensures IsNullOrWhiteSpace(Some(request.role)) ==>
      r == BadRequest && identity.users == old(identity.users) && identity.userRoles == old(identity.userRoles)
      && db.tables == old(db.tables) && db.pending == []
    ensures !IsNullOrWhiteSpace(Some(request.role)) ==>
      var user := NewUser(userId, request);
      var entry := AuditService.NewEntry(Some(ctx), "USER_CREATE", "auth/register/" + request.role, request.patientId, now);
      if !Identity.CreateAccepted(old(identity.users), user, request.password, emailWellFormed) then
        r == BadRequest && identity.users == old(identity.users) && identity.userRoles == old(identity.userRoles)
        && db.tables == old(db.tables) && db.pending == []
      else if !commitCreate then
        r == Fault(IdentityStoreFailed) && identity.users == old(identity.users) && identity.userRoles == old(identity.userRoles)
        && db.tables == old(db.tables) && db.pending == []
      else
        && identity.users == old(identity.users) + [user]
        && match Identity.FindRole(old(identity.roles), request.role)
           case None => r == Fault(RoleMissing) && identity.userRoles == old(identity.userRoles)
                        && db.tables == old(db.tables) && db.pending == []
           case Some(stored) =>
             if !commitAdd then
               r == BadRequest && identity.userRoles == old(identity.userRoles) && db.tables == old(db.tables) && db.pending == []
             else
               && identity.userRoles == old(identity.userRoles)[userId := [stored]]
               && if AuditFits(entry)
                  then r == Ok(()) && db.pending == [] && db.tables == old(db.tables).(auditLogs := old(db.tables.auditLogs) + [entry])
                  else r == Fault(SaveFailed(ConstraintViolation)) && db.tables == old(db.tables)
  {
    if IsNullOrWhiteSpace(Some(request.role)) {
      return BadRequest;
    }
    var user := NewUser(userId, request);
    assert userId !in identity.userRoles;
    var create := identity.Create(user, request.password, emailWellFormed, commitCreate);
    if create.Failure? {
      return Fault(IdentityStoreFailed);
    }
    if create.value == Identity.Failed {
      return BadRequest;
    }
    assert user in identity.users;
    assert Identity.RolesOf(identity.userRoles, userId) == [];
    r := AddFirstRole(db, identity, ctx, request, user, commitAdd, now);
  }

  /** The part of `Register` once the account exists and holds no role: the requested role
      is added, then the creation is logged. */
  method AddFirstRole(db: AppDb, identity: Identity.UserStore, ctx: CurrentUser.RequestContext,
                      request: RegisterRequest, user: ApplicationUser, commitAdd: bool, now: Instant)
    returns (r: Response<()>)
    requires db.Valid() && db.pending == [] && identity.Valid()
    requires user in identity.users && Identity.RolesOf(identity.userRoles, user.id) == []
    modifies db, identity
    ensures db.Valid() && identity.Valid() && identity.roles == old(identity.roles) && identity.users == old(identity.users)
    ensures var entry := AuditService.NewEntry(Some(ctx), "USER_CREATE", "auth/register/" + request.role, request.patientId, now);
      match Identity.FindRole(old(identity.roles), request.role)
      case None => r == Fault(RoleMissing) && identity.userRoles == old(identity.userRoles)
                   && db.tables == old(db.tables) && db.pending == []
      case Some(stored) =>
        if !commitAdd then
          r == BadRequest && identity.userRoles == old(identity.userRoles) && db.tables == old(db.tables) && db.pending == []
        else
          && identity.userRoles == old(identity.userRoles)[user.id := [stored]]
          && if AuditFits(entry)
             then r == Ok(()) && db.pending == [] && db.tables == old(db.tables).(auditLogs := old(db.tables.auditLogs) + [entry])
             else r == Fault(SaveFailed(ConstraintViolation)) && db.tables == old(db.tables)
  {
    ghost var rolesBefore := identity.userRoles;
    var add := identity.AddToRole(user, request.role, commitAdd);
    if add == Success(Identity.Succeeded) {
      var stored := Identity.FindRole(identity.roles, request.role).value;
      assert Identity.RolesOf(rolesBefore, user.id) + [stored] == [stored];
      assert identity.userRoles == rolesBefore[user.id := [stored]];
    }
    if add.Failure? {
      return Fault(RoleMissing);
    }
    if add.value == Identity.Failed {
      return BadRequest;
    }
    var logged := AuditService.LogAsync(db, Some(ctx), "USER_CREATE", "auth/register/" + request.role, request.patientId, now);
    if logged.Failure? {
      return Fault(SaveFailed(logged.error));
    }
    r := Ok(());
  }

  // ---------------------------------------------------------------------------------------
  // Me

  datatype MeView = MeView(userId: Option<Guid>, email: Option<string>, roles: seq<string>, patientId: Option<Guid>)

  /** `GET api/auth/me` (any signed-in caller): the caller as the claims describe it. */
  function Me(user: CurrentUser.Principal): MeView {
    MeView(CurrentUser.UserId(user), CurrentUser.Email(user), CurrentUser.Roles(user), CurrentUser.PatientId(user))
  }

  /** A caller presenting the token of a sign-in, while it is valid, is described by `Me` as
      the account that signed in: its id, its email, its roles without case duplicates and its
      patient. */
  lemma MeAfterSignIn(options: JwtTokenService.JwtOptions, codec: JwtTokenService.TokenCodec,
                      user: ApplicationUser, roles: seq<string>, now: Instant, jti: Guid, later: Instant)
    requires JwtTokenService.Lawful(codec) && options.accessTokenMinutes >= 0
    requires now <= later <= now + Minutes(options.accessTokenMinutes)
    ensures var p := JwtTokenService.ValidateToken(options, codec, Answer(options, codec, user, roles, now, jti).accessToken, later);
      p.Some? && Me(p.value) == MeView(Some(user.id), Some(user.email.GetOr("")), DistinctIgnoreCase(roles), user.patientId)
  {
    var t := Issued(options, user, roles, now, jti);
    var token := Answer(options, codec, user, roles, now, jti).accessToken;
    assert token == codec.write(t, options.signingKey);
    JwtTokenService.IssuedTokenLifetime(options, codec, user.id, user.email.GetOr(""), user.patientId, roles, now, jti, later);
    var p := JwtTokenService.ValidateToken(options, codec, token, later);
    assert p == Some(CurrentUser.Principal(t.claims));
    JwtTokenService.ClaimsReadBack(user.id, user.email.GetOr(""), jti, user.patientId, roles);
    assert Me(p.value) == MeView(Some(user.id), Some(user.email.GetOr("")), DistinctIgnoreCase(roles), user.patientId);
  }

  // ---------------------------------------------------------------------------------------
  // One-time codes

  datatype RequestOtpRequest = RequestOtpRequest(patientId: Guid, patientIdOrMrn: string)

  /** The body `RequestOtp` answers with: the code itself, the patient's name and id. */
  datatype OtpIssued = OtpIssued(code: string, patientName: string, patientId: Guid)

  /** The patient `RequestOtp` is for: the text as a Guid naming a patient, else the text as
      an MRN. */
  function PatientForOtp(patients: seq<Patient>, text: string): (r: Option<nat>)
    ensures r.Some? ==> r.value < |patients|
    ensures r.Some? && patients[r.value].mrn != text ==> TryParse(text) == Some(patients[r.value].id)
    ensures TryParse(text).Some? && HasKey(patients, PatientKey, TryParse(text).value) ==>
      r.Some? && patients[r.value].id == TryParse(text).value
    ensures r.None? <==>
      && (TryParse(text).Some? ==> !HasKey(patients, PatientKey, TryParse(text).value))
      && (forall i :: 0 <= i < |patients| ==> patients[i].mrn != text)
  {
    var byId := match TryParse(text) case Some(g) => FindPatient(patients, g) case None => None;
    if byId.Some? then byId else FindPatientByMrn(patients, text)
  }

  /** `POST api/auth/request-otp` (anonymous); `otpId` is the new row's id and `sample` the
      random draw. No audit entry is written. */
  method RequestOtp(db: AppDb, request: RequestOtpRequest, otpId: Guid, now: Instant, sample: nat)
    returns (r: Response<OtpIssued>)
    requires db.Valid() && db.pending == []
    requires !HasKey(db.tables.otps, OtpKey, otpId)
    modifies db
    ensures db.Valid() && db.pending == []
    ensures match PatientForOtp(old(db.tables.patients), request.patientIdOrMrn)
      case None => r == NotFound && db.tables == old(db.tables)
      case Some(i) =>
        var p := old(db.tables.patients)[i];
        var code := OtpService.CodeFor(sample);
        && r == Ok(OtpIssued(code, p.fullName, p.id))
        && db.tables == old(db.tables).(otps := old(db.tables.otps) + [OtpService.NewOtp(otpId, p.id, code, now)])
  {
    var i := PatientForOtp(db.tables.patients, request.patientIdOrMrn);
    if i.None? {
      return NotFound;
    }
    var patient := db.tables.patients[i.value];
    var code := OtpService.GenerateOtp(db, patient.id, otpId, now, sample);
    r := Ok(OtpIssued(code, patient.fullName, patient.id));
  }

  datatype OtpLoginRequest = OtpLoginRequest(patientId: Guid, patientIdOrMrn: string, otp: string)

  /** The patient `LoginWithOtp` checks the code for: the request's id; when that is empty and
      text is given, the text as a Guid, else the patient with the text as MRN, else still the
      empty Guid. */
  function OtpLoginTarget(patients: seq<Patient>, request: OtpLoginRequest): Guid {
    if request.patientId == Guids.Empty && request.patientIdOrMrn != [] then
      match TryParse(request.patientIdOrMrn)
      case Some(g) => g
      case None =>
        match FindPatientByMrn(patients, request.patientIdOrMrn)
        case Some(i) => patients[i].id
        case None => request.patientId
    else request.patientId
  }

  /** A request that names the patient by MRN alone is checked against that patient, when
      the MRN does not read as a Guid. */
  lemma MrnNamesThePatient(patients: seq<Patient>, i: nat, code: string)
    requires MrnsDistinct(patients) && i < |patients| && patients[i].mrn != [] && TryParse(patients[i].mrn).None?
    ensures OtpLoginTarget(patients, OtpLoginRequest(Guids.Empty, patients[i].mrn, code)) == patients[i].id
  {
    var k := FindPatientByMrn(patients, patients[i].mrn);
    assert k.Some?;
    assert k == Some(i);
  }

  /** `POST api/auth/login-otp` (anonymous). A code that checks out is spent even when no
      account is linked to the patient. */
  method LoginWithOtp(db: AppDb, identity: Identity.UserStore, ctx: CurrentUser.RequestContext,
                      options: JwtTokenService.JwtOptions, codec: JwtTokenService.TokenCodec,
                      request: OtpLoginRequest, now: Instant, jti: Guid) returns (r: Response<AuthResponse>)
    requires db.Valid() && db.pending == []
    modifies db
    ensures db.Valid()
    ensures var patientId := OtpLoginTarget(old(db.tables.patients), request);
      match OtpService.Redeem(old(db.tables.otps), patientId, request.otp, now)
      case None => r == Unauthorized && db.tables == old(db.tables) && db.pending == []
      case Some(otps) =>
        var t1 := old(db.tables).(otps := otps);
        match Identity.FindByPatientId(identity.users, patientId)
        case None => r == Unauthorized && db.tables == t1 && db.pending == []
        case Some(user) =>
          var roles := Identity.RolesOf(identity.userRoles, user.id);
          var entry := AuditService.NewEntry(Some(ctx), "AUTH_OTP_LOGIN", "auth/login-otp", user.patientId, now);
          if AuditFits(entry)
          then r == Ok(Answer(options, codec, user, roles, now, jti)) && db.pending == []
               && db.tables == t1.(auditLogs := t1.auditLogs + [entry])
          else r == Fault(SaveFailed(ConstraintViolation)) && db.tables == t1
  {
    var patientId := request.patientId;
    if patientId == Guids.Empty && request.patientIdOrMrn != [] {
      var parsed := TryParse(request.patientIdOrMrn);
      if parsed.Some? {
        patientId := parsed.value;
      } else {
        var patient := FindPatientByMrn(db.tables.patients, request.patientIdOrMrn);
        if patient.Some? {
          patientId := db.tables.patients[patient.value].id;
        }
      }
    }
    assert patientId == OtpLoginTarget(db.tables.patients, request);
    r := RedeemAndSignIn(db, identity, ctx, options, codec, patientId, request.otp, now, jti);
  }

  /** The part of `LoginWithOtp` once the patient is settled: the code is checked and spent,
      then the linked account, if any, is signed in. */
  method RedeemAndSignIn(db: AppDb, identity: Identity.UserStore, ctx: CurrentUser.RequestContext,
                         options: JwtTokenService.JwtOptions, codec: JwtTokenService.TokenCodec,
                         patientId: Guid, otp: string, now: Instant, jti: Guid) returns (r: Response<AuthResponse>)
    requires db.Valid() && db.pending == []
    modifies db
    ensures db.Valid()
    ensures match OtpService.Redeem(old(db.tables.otps), patientId, otp, now)
      case None => r == Unauthorized && db.tables == old(db.tables) && db.pending == []
      case Some(otps) =>
        var t1 := old(db.tables).(otps := otps);
        match Identity.FindByPatientId(identity.users, patientId)
        case None => r == Unauthorized && db.tables == t1 && db.pending == []
        case Some(user) =>
          var roles := Identity.RolesOf(identity.userRoles, user.id);
          var entry := AuditService.NewEntry(Some(ctx), "AUTH_OTP_LOGIN", "auth/login-otp", user.patientId, now);
          if AuditFits(entry)
          then r == Ok(Answer(options, codec, user, roles, now, jti)) && db.pending == []
               && db.tables == t1.(auditLogs := t1.auditLogs + [entry])
          else r == Fault(SaveFailed(ConstraintViolation)) && db.tables == t1
  {
    var valid := OtpService.ValidateOtp(db, patientId, otp, now);
    if !valid {
      return Unauthorized;
    }
    var user := Identity.FindByPatientId(identity.users, patientId);
    if user.None? {
      return Unauthorized;
    }
    var roles := Identity.RolesOf(identity.userRoles, user.value.id);
    r := SignIn(db, ctx, options, codec, user.value, roles, "AUTH_OTP_LOGIN", "auth/login-otp", now, jti);
  }

  /** A code `RequestOtp` issued for a patient signs in, within its ten minutes, a request
      that names the patient by id; a second use of the same code is refused when no other
      row for the patient holds it. */
  lemma IssuedCodeSignsInOnce(t: Tables, p: Patient, otpId: Guid, sample: nat, created: Instant, now: Instant)
    requires created <= now < created + OtpService.Lifetime
    requires forall i :: 0 <= i < |t.otps| ==> !OtpService.Redeemable(t.otps[i], p.id, OtpService.CodeFor(sample), now)
    ensures var code := OtpService.CodeFor(sample);
      var otps := t.otps + [OtpService.NewOtp(otpId, p.id, code, created)];
      var request := OtpLoginRequest(p.id, "", code);
      && OtpLoginTarget(t.patients, request) == p.id
      && OtpService.Redeem(otps, p.id, code, now).Some?
      && OtpService.Redeem(OtpService.Redeem(otps, p.id, code, now).value, p.id, code, now).None?
  {
    var code := OtpService.CodeFor(sample);
    var o := OtpService.NewOtp(otpId, p.id, code, created);
    var otps := t.otps + [o];
    var k := |t.otps|;
    assert otps[k] == o;
    assert OtpService.Redeemable(otps[k], p.id, code, now);
    assert forall i :: 0 <= i < |otps| && i != k ==> otps[i] == t.otps[i];
    OtpService.RedeemOnce(otps, p.id, code, now, k);
  }
}
