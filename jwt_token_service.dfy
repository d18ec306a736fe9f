/** `JwtTokenService`: access tokens. A token carries the user's id (`sub`, section 4.1.2 of
    RFC 7519), email, a fresh token id (`jti`, section 4.1.7), the patient id when the user
    is linked to a patient, and one role claim per role; it is valid from its issue time
    (`nbf`, section 4.1.5) until `AccessTokenMinutes` later (`exp`, section 4.1.4), with a
    leeway of 30 seconds either side, and is signed with HMAC-SHA256 (section 3.2 of RFC 7518).

    The compact serialization and the signature are given as a codec that reads back what it
    wrote under the same key; everything else the validator decides is written out.
 */
module JwtTokenService {
  import opened Base
  import opened Text
  import opened Guids
  import opened CurrentUser
  import ClaimNames

  datatype JwtOptions = JwtOptions(issuer: string, audience: string, signingKey: string, accessTokenMinutes: int)

  /** The content of a `JwtSecurityToken`. */
  datatype SecurityToken = SecurityToken(
    issuer: string, audience: string, claims: seq<Claim>, notBefore: Instant, expires: Instant)

  /** `write(token, key)` is `WriteToken` with HS256 under `key`; `read(text, key)` parses the
      text and checks its signature under `key`, None when either fails. */
  datatype TokenCodec = TokenCodec(
    write: (SecurityToken, string) -> string,
    read: (string, string) -> Option<SecurityToken>)

  ghost predicate Lawful(codec: TokenCodec) {
    forall t, key :: codec.read(codec.write(t, key), key) == Some(t)
  }

  /** `ClockSkew = TimeSpan.FromSeconds(30)`. */
  const ClockSkew: int := 30

  function RoleClaims(roles: seq<string>): (r: seq<Claim>)
    ensures |r| == |roles| && forall i :: 0 <= i < |r| ==> r[i] == Claim(ClaimNames.Role, roles[i])
  {
    seq(|roles|, i requires 0 <= i < |roles| => Claim(ClaimNames.Role, roles[i]))
  }

  /** The claims before the role claims. */
  function IdentityClaims(userId: Guid, email: string, jti: Guid, patientId: Option<Guid>): seq<Claim> {
    [Claim(ClaimNames.Sub, ToString(userId)), Claim(ClaimNames.Email, email), Claim(ClaimNames.Jti, ToString(jti))]
    + (if patientId.Some? then [Claim(ClaimNames.PatientId, ToString(patientId.value))] else [])
  }

  /** The claim list of a token issued for these arguments. */
  function IssuedClaims(userId: Guid, email: string, jti: Guid, patientId: Option<Guid>, roles: seq<string>): seq<Claim> {
    IdentityClaims(userId, email, jti, patientId) + RoleClaims(DistinctIgnoreCase(roles))
  }

  /** `CreateAccessTokenAsync(userId, email, patientId, roles)` at instant `now`; `jti` is the
      new token id. Returns the token and its expiry. */
  method CreateAccessToken(options: JwtOptions, codec: TokenCodec, userId: Guid, email: string,
                           patientId: Option<Guid>, roles: seq<string>, now: Instant, jti: Guid)
    returns (token: string, expiresAt: Instant)
    ensures expiresAt == now + Minutes(options.accessTokenMinutes)
    ensures token == codec.write(SecurityToken(options.issuer, options.audience,
                                               IssuedClaims(userId, email, jti, patientId, roles), now, expiresAt),
                                 options.signingKey)
  {
    expiresAt := now + Minutes(options.accessTokenMinutes);
    var claims := [Claim(ClaimNames.Sub, ToString(userId)), Claim(ClaimNames.Email, email), Claim(ClaimNames.Jti, ToString(jti))];
    if patientId.Some? {
      claims := claims + [Claim(ClaimNames.PatientId, ToString(patientId.value))];
    }
    var distinct := DistinctIgnoreCase(roles);
    var i := 0;
    while i < |distinct|
      invariant 0 <= i <= |distinct|
      invariant claims == IdentityClaims(userId, email, jti, patientId) + RoleClaims(distinct[..i])
    {
      assert RoleClaims(distinct[..i + 1]) == RoleClaims(distinct[..i]) + [Claim(ClaimNames.Role, distinct[i])];
      claims := claims + [Claim(ClaimNames.Role, distinct[i])];
      i := i + 1;
    }
    assert distinct[..i] == distinct;
    token := codec.write(SecurityToken(options.issuer, options.audience, claims, now, expiresAt), options.signingKey);
  }

  /** The lifetime check of the validator: not before `nbf` and not after `exp`, each with the
      clock skew, and `nbf` not after `exp`. */
  predicate LifetimeValid(t: SecurityToken, now: Instant) {
    t.notBefore <= t.expires && t.notBefore <= now + ClockSkew && t.expires >= now - ClockSkew
  }

  /** `ValidateToken(token)`: the token's principal when the signature verifies and the issuer,
      the audience and the lifetime are right; null on every failure. */
  function ValidateToken(options: JwtOptions, codec: TokenCodec, token: string, now: Instant): Option<Principal> {
    match codec.read(token, options.signingKey)
    case None => None
    case Some(t) =>
      if t.issuer == options.issuer && t.audience == options.audience && LifetimeValid(t, now)
      then Some(Principal(t.claims))
      else None
  }

  /** A token this service issued is accepted, with the claims it was issued with, at every
      instant from 30 seconds before its issue to 30 seconds after its expiry, and refused
      at every other instant. */
  lemma IssuedTokenLifetime(options: JwtOptions, codec: TokenCodec, userId: Guid, email: string,
                            patientId: Option<Guid>, roles: seq<string>, issued: Instant, jti: Guid, now: Instant)
    requires Lawful(codec) && options.accessTokenMinutes >= 0
    ensures var expires := issued + Minutes(options.accessTokenMinutes);
      var t := SecurityToken(options.issuer, options.audience, IssuedClaims(userId, email, jti, patientId, roles), issued, expires);
      ValidateToken(options, codec, codec.write(t, options.signingKey), now)
        == if issued - ClockSkew <= now <= expires + ClockSkew then Some(Principal(t.claims)) else None
  {
    var expires := issued + Minutes(options.accessTokenMinutes);
    var t := SecurityToken(options.issuer, options.audience, IssuedClaims(userId, email, jti, patientId, roles), issued, expires);
    assert codec.read(codec.write(t, options.signingKey), options.signingKey) == Some(t);
  }

  /** A token from another issuer or for another audience is refused whatever its lifetime. */
  lemma ForeignTokenRefused(options: JwtOptions, codec: TokenCodec, token: string, now: Instant)
    requires codec.read(token, options.signingKey).Some?
    requires var t := codec.read(token, options.signingKey).value;
      t.issuer != options.issuer || t.audience != options.audience
    ensures ValidateToken(options, codec, token, now) == None
  {
  }

  // ---------------------------------------------------------------------------------------
  // Reading the issued claims back

  lemma RoleValuesAppend(a: seq<Claim>, b: seq<Claim>)
    ensures RoleValues(a + b) == RoleValues(a) + RoleValues(b)
  {
    if a != [] {
      assert (a + b)[0] == a[0];
      assert (a + b)[1..] == a[1..] + b;
      RoleValuesAppend(a[1..], b);
    } else {
      assert a + b == b;
    }
  }

  lemma {:induction false} RoleValuesOfRoleClaims(roles: seq<string>)
    ensures RoleValues(RoleClaims(roles)) == roles
  {
    if roles != [] {
      assert RoleClaims(roles)[1..] == RoleClaims(roles[1..]);
      RoleValuesOfRoleClaims(roles[1..]);
    }
  }

  /** The claim types a token uses, which no two of which are equal ignoring case. */
  predicate IssuedKind(k: string) {
    k == ClaimNames.Sub || k == ClaimNames.Email || k == ClaimNames.Jti || k == ClaimNames.PatientId || k == ClaimNames.Role
  }

  lemma IssuedClaimKinds(userId: Guid, email: string, jti: Guid, patientId: Option<Guid>, roles: seq<string>)
    ensures forall c :: c in IssuedClaims(userId, email, jti, patientId, roles) ==> IssuedKind(c.kind)
  {
  }

  /** No claim of the token has a type that equals `kind` ignoring case when `kind` has a length
      none of the issued types has. */
  lemma NoClaimOfLength(claims: seq<Claim>, kind: string)
    requires forall c :: c in claims ==> IssuedKind(c.kind)
    requires |kind| !in {3, 5, 10, 60}
    ensures forall i :: 0 <= i < |claims| ==> !EqualsIgnoreCase(claims[i].kind, kind)
  {
    forall i | 0 <= i < |claims| ensures !EqualsIgnoreCase(claims[i].kind, kind) {
      assert claims[i] in claims;
      assert |FoldCase(claims[i].kind)| != |FoldCase(kind)|;
    }
  }

  lemma UserIdReadBack(userId: Guid, email: string, jti: Guid, patientId: Option<Guid>, roles: seq<string>)
    ensures UserId(Principal(IssuedClaims(userId, email, jti, patientId, roles))) == Some(userId)
  {
    var claims := IssuedClaims(userId, email, jti, patientId, roles);
    IssuedClaimKinds(userId, email, jti, patientId, roles);
    NoClaimOfLength(claims, ClaimNames.NameIdentifier);
    assert claims[0] == Claim(ClaimNames.Sub, ToString(userId));
    assert EqualsIgnoreCase(claims[0].kind, ClaimNames.Sub);
    Guids.ParseToString(userId);
  }

  lemma EmailReadBack(userId: Guid, email: string, jti: Guid, patientId: Option<Guid>, roles: seq<string>)
    ensures Email(Principal(IssuedClaims(userId, email, jti, patientId, roles))) == Some(email)
  {
    var claims := IssuedClaims(userId, email, jti, patientId, roles);
    IssuedClaimKinds(userId, email, jti, patientId, roles);
    NoClaimOfLength(claims, ClaimNames.EmailAddress);
    assert claims[0] == Claim(ClaimNames.Sub, ToString(userId));
    assert !EqualsIgnoreCase(claims[0].kind, ClaimNames.Email) by {
      assert |FoldCase(claims[0].kind)| != |FoldCase(ClaimNames.Email)|;
    }
    assert claims[1] == Claim(ClaimNames.Email, email);
    assert EqualsIgnoreCase(claims[1].kind, ClaimNames.Email);
    assert FirstOfKind(claims, ClaimNames.Email) == 1;
  }

  lemma PatientIdReadBack(userId: Guid, email: string, jti: Guid, patientId: Option<Guid>, roles: seq<string>)
    ensures PatientId(Principal(IssuedClaims(userId, email, jti, patientId, roles))) == patientId
  {
    var claims := IssuedClaims(userId, email, jti, patientId, roles);
    IssuedClaimKinds(userId, email, jti, patientId, roles);
    forall i | 0 <= i < 3 ensures !EqualsIgnoreCase(claims[i].kind, ClaimNames.PatientId) {
      assert |FoldCase(claims[i].kind)| != |FoldCase(ClaimNames.PatientId)|;
    }
    if patientId.Some? {
      assert claims[3] == Claim(ClaimNames.PatientId, ToString(patientId.value));
      assert EqualsIgnoreCase(claims[3].kind, ClaimNames.PatientId);
      assert FirstOfKind(claims, ClaimNames.PatientId) == 3;
      Guids.ParseToString(patientId.value);
    } else {
      forall i | 0 <= i < |claims| ensures !EqualsIgnoreCase(claims[i].kind, ClaimNames.PatientId) {
        assert claims[i] in claims;
        assert |FoldCase(claims[i].kind)| != |FoldCase(ClaimNames.PatientId)|;
      }
    }
  }

  lemma NoRoleValues(claims: seq<Claim>)
    requires forall i :: 0 <= i < |claims| ==> claims[i].kind != ClaimNames.Role
    ensures RoleValues(claims) == []
  {
  }

  lemma RolesReadBack(userId: Guid, email: string, jti: Guid, patientId: Option<Guid>, roles: seq<string>)
    ensures Roles(Principal(IssuedClaims(userId, email, jti, patientId, roles))) == DistinctIgnoreCase(roles)
  {
    var head := IdentityClaims(userId, email, jti, patientId);
    var distinct := DistinctIgnoreCase(roles);
    NoRoleValues(head);
    RoleValuesAppend(head, RoleClaims(distinct));
    RoleValuesOfRoleClaims(distinct);
    var claims := IssuedClaims(userId, email, jti, patientId, roles);
    assert RoleValues(claims) == distinct;
    DistinctIdempotent(roles);
    assert DistinctIgnoreCase(RoleValues(claims)) == distinct;
    assert Roles(Principal(claims)) == DistinctIgnoreCase(RoleValues(Principal(claims).claims));
  }

  /** The current-user service reads back from an issued token exactly what it was issued
      with: the user id, the email, the patient id when there is one, and the de-duplicated
      roles. */
  lemma ClaimsReadBack(userId: Guid, email: string, jti: Guid, patientId: Option<Guid>, roles: seq<string>)
    ensures var p := Principal(IssuedClaims(userId, email, jti, patientId, roles));
      && UserId(p) == Some(userId)
      && Email(p) == Some(email)
      && PatientId(p) == patientId
      && Roles(p) == DistinctIgnoreCase(roles)
  {
    UserIdReadBack(userId, email, jti, patientId, roles);
    EmailReadBack(userId, email, jti, patientId, roles);
    PatientIdReadBack(userId, email, jti, patientId, roles);
    RolesReadBack(userId, email, jti, patientId, roles);
  }
}
