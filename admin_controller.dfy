/** `AdminController` (AdminOnly): list the accounts with their roles, replace an account's
    roles by one, and read the audit ledger. */
module AdminController {
  import opened Base
  import opened Text
  import opened Guids
  import opened Entities
  import opened Store
  import opened Http
  import Ordering
  import CurrentUser
  import Policies
  import Identity
  import AuditService
  import JwtTokenService
  import AuthController

  // ---------------------------------------------------------------------------------------
  // Users

  /** One row of the account listing. */
  datatype UserView = UserView(id: Guid, email: Option<string>, patientId: Option<Guid>, roles: seq<string>)

  function ViewOf(u: ApplicationUser, userRoles: map<Guid, seq<string>>): UserView {
    UserView(u.id, u.email, u.patientId, Identity.RolesOf(userRoles, u.id))
  }

  /** `OrderBy(x => x.Email)` under the database's collation `le` on (nullable) emails. */
  function ByEmail(le: (Option<string>, Option<string>) -> bool): (ApplicationUser, ApplicationUser) -> bool {
    (a: ApplicationUser, b: ApplicationUser) => le(a.email, b.email)
  }

  function ViewByEmail(le: (Option<string>, Option<string>) -> bool): (UserView, UserView) -> bool {
    (a: UserView, b: UserView) => le(a.email, b.email)
  }

  lemma ByEmailIsTotalPreorder(le: (Option<string>, Option<string>) -> bool)
    requires Ordering.TotalPreorder(le)
    ensures Ordering.TotalPreorder(ByEmail(le))
  {
    forall a: ApplicationUser, b: ApplicationUser, c: ApplicationUser
      ensures ByEmail(le)(a, b) || ByEmail(le)(b, a)
      ensures ByEmail(le)(a, b) && ByEmail(le)(b, c) ==> ByEmail(le)(a, c)
    {
      assert le(a.email, b.email) || le(b.email, a.email);
      if le(a.email, b.email) && le(b.email, c.email) {
        assert le(a.email, c.email);
      }
    }
  }

  /** The `foreach` of `Users`: one view per account, in the order given, each with
      `GetRolesAsync`. */
  method ViewsOf(accounts: seq<ApplicationUser>, userRoles: map<Guid, seq<string>>) returns (result: seq<UserView>)
    ensures |result| == |accounts|
    ensures forall k :: 0 <= k < |accounts| ==> result[k] == ViewOf(accounts[k], userRoles)
  {
    result := [];
    var i := 0;
    while i < |accounts|
      invariant 0 <= i <= |accounts|
      invariant |result| == i
      invariant forall k :: 0 <= k < i ==> result[k] == ViewOf(accounts[k], userRoles)
    {
      result := result + [ViewOf(accounts[i], userRoles)];
      i := i + 1;
    }
  }

  /** The listing of `Users`: the accounts in email order, each with its roles. */
  method ListUsers(users: seq<ApplicationUser>, userRoles: map<Guid, seq<string>>,
                   le: (Option<string>, Option<string>) -> bool) returns (result: seq<UserView>)
    requires Ordering.TotalPreorder(le)
    requires IdsDistinct(users)
    ensures |result| == |users|
    ensures forall u :: u in users <==> ViewOf(u, userRoles) in result
    ensures forall i, j :: 0 <= i < j < |result| ==> result[i].id != result[j].id
    ensures Ordering.SortedBy(result, ViewByEmail(le))
  {
    var sorted := Ordering.Sort(users, ByEmail(le));
    result := ViewsOf(sorted, userRoles);
    PermutedIdsDistinct(users, sorted);
    ListingIsTheSortedAccounts(users, userRoles, le, result);
  }

  /** `GET api/admin/users`: every account once, in email order, each with the roles it
      holds; the read is logged with no patient. */
  method Users(db: AppDb, identity: Identity.UserStore, ctx: CurrentUser.RequestContext,
               le: (Option<string>, Option<string>) -> bool, now: Instant) returns (r: Response<seq<UserView>>)
    requires Policies.AdminOnly(ctx.user)
    requires db.Valid() && db.pending == [] && identity.Valid()
    requires Ordering.TotalPreorder(le)
    modifies db
    ensures db.Valid()
    ensures var entry := AuditService.NewEntry(Some(ctx), "ADMIN_USERS_READ", "admin/users", None, now);
      if AuditFits(entry) then
        && r.Ok? && db.pending == [] && db.tables == old(db.tables).(auditLogs := old(db.tables.auditLogs) + [entry])
        && |r.body| == |identity.users|
        && (forall u :: u in identity.users <==> ViewOf(u, identity.userRoles) in r.body)
        && (forall i, j :: 0 <= i < j < |r.body| ==> r.body[i].id != r.body[j].id)
        && Ordering.SortedBy(r.body, ViewByEmail(le))
      else r == Fault(SaveFailed(ConstraintViolation)) && db.tables == old(db.tables)
  {
    var result := ListUsers(identity.users, identity.userRoles, le);
    var logged := AuditService.LogAsync(db, Some(ctx), "ADMIN_USERS_READ", "admin/users", None, now);
    if logged.Failure? {
      return Fault(SaveFailed(logged.error));
    }
    r := Ok(result);
  }

  /** No two accounts share an id (the primary key of `AspNetUsers`). */
  predicate IdsDistinct(users: seq<ApplicationUser>) {
    forall i, j :: 0 <= i < j < |users| ==> users[i].id != users[j].id
  }

  /** With distinct ids an account occurs at most once. */
  lemma {:induction false} OccursAtMostOnce(users: seq<ApplicationUser>, x: ApplicationUser)
    requires IdsDistinct(users)
    ensures multiset(users)[x] <= 1
  {
    if |users| > 0 {
      assert users == [users[0]] + users[1..];
      assert IdsDistinct(users[1..]) by {
        forall i, j | 0 <= i < j < |users[1..]| ensures users[1..][i].id != users[1..][j].id {
          assert users[1..][i] == users[i + 1] && users[1..][j] == users[j + 1];
        }
      }
      OccursAtMostOnce(users[1..], x);
    }
  }

  /** A reordering of accounts with distinct ids has distinct ids. */
  lemma PermutedIdsDistinct(users: seq<ApplicationUser>, sorted: seq<ApplicationUser>)
    requires IdsDistinct(users) && multiset(sorted) == multiset(users)
    ensures IdsDistinct(sorted)
  {
    forall i, j | 0 <= i < j < |sorted| ensures sorted[i].id != sorted[j].id {
      if sorted[i] == sorted[j] {
        var x := sorted[i];
        assert sorted == sorted[..j] + sorted[j..];
        assert sorted[..j][i] == x && sorted[j..][0] == x;
        assert multiset(sorted)[x] == multiset(sorted[..j])[x] + multiset(sorted[j..])[x];
        OccursAtMostOnce(users, x);
      } else {
        assert sorted[i] in multiset(users) && sorted[j] in multiset(users);
        var p :| 0 <= p < |users| && users[p] == sorted[i];
        var q :| 0 <= q < |users| && users[q] == sorted[j];
        assert p != q;
        if p < q { assert users[p].id != users[q].id; } else { assert users[q].id != users[p].id; }
      }
    }
  }

  /** The listing built row by row from the email-sorted accounts has one row per account,
      names every account and no other, and is in email order. */
  lemma ListingIsTheSortedAccounts(users: seq<ApplicationUser>, userRoles: map<Guid, seq<string>>,
                                   le: (Option<string>, Option<string>) -> bool, result: seq<UserView>)
    requires Ordering.TotalPreorder(le)
    requires var sorted := Ordering.Sort(users, ByEmail(le));
      |result| == |sorted| && forall k :: 0 <= k < |sorted| ==> result[k] == ViewOf(sorted[k], userRoles)
    ensures |result| == |users|
    ensures forall u :: u in users <==> ViewOf(u, userRoles) in result
    ensures Ordering.SortedBy(result, ViewByEmail(le))
  {
    var sorted := Ordering.Sort(users, ByEmail(le));
    ByEmailIsTotalPreorder(le);
    Ordering.SortSorted(users, ByEmail(le));
    forall u ensures u in users <==> ViewOf(u, userRoles) in result {
      assert u in users <==> u in multiset(sorted) by {
        assert u in users <==> u in multiset(users);
      }
      if u in sorted {
        var k :| 0 <= k < |sorted| && sorted[k] == u;
        assert result[k] == ViewOf(u, userRoles);
      }
      if ViewOf(u, userRoles) in result {
        var k :| 0 <= k < |result| && result[k] == ViewOf(u, userRoles);
        assert sorted[k] == u;
      }
    }
    forall a, b | 0 <= a < b < |result| ensures ViewByEmail(le)(result[a], result[b]) {
      assert ByEmail(le)(sorted[a], sorted[b]);
    }
  }

  // ---------------------------------------------------------------------------------------
  // SetUserRole

  datatype SetUserRoleRequest = SetUserRoleRequest(email: string, role: string)

  /** The role map once the account's current roles are removed: untouched when it holds
      none. */
  function Cleared(userRoles: map<Guid, seq<string>>, id: Guid): (m: map<Guid, seq<string>>)
    ensures Identity.RolesOf(m, id) == []
    ensures forall other :: other != id ==> Identity.RolesOf(m, other) == Identity.RolesOf(userRoles, other)
  {
    if Identity.RolesOf(userRoles, id) == [] then userRoles else userRoles[id := []]
  }

  /** Setting the one role after clearing is the same as replacing the account's roles by
      that role. */
  lemma ClearedThenAdded(userRoles: map<Guid, seq<string>>, id: Guid, stored: string)
    ensures Cleared(userRoles, id)[id := Identity.RolesOf(Cleared(userRoles, id), id) + [stored]] == userRoles[id := [stored]]
  {
    assert Identity.RolesOf(Cleared(userRoles, id), id) + [stored] == [stored];
  }

  /** The first step of `SetUserRole`: when the account holds roles, remove them all. */
  method ClearRoles(identity: Identity.UserStore, user: ApplicationUser, commitRemove: bool) returns (ok: bool)
    requires identity.Valid() && user in identity.users
    modifies identity
    ensures identity.Valid() && identity.users == old(identity.users) && identity.roles == old(identity.roles)
    ensures ok <==> Identity.RolesOf(old(identity.userRoles), user.id) == [] || commitRemove
    ensures identity.userRoles == if ok then Cleared(old(identity.userRoles), user.id) else old(identity.userRoles)
  {
    var current := Identity.RolesOf(identity.userRoles, user.id);
    if |current| > 0 {
      forall i | 0 <= i < |current| ensures ContainsIgnoreCase(current, current[i]) {
        assert EqualsIgnoreCase(current[i], current[i]);
      }
      Identity.WithoutAll(current);
      var remove := identity.RemoveFromRoles(user, current, commitRemove);
      if remove == Identity.Failed {
        return false;
      }
    }
    return true;
  }

  /** `SetUserRole` once the account and the stored role name are found. */
  method ReplaceRoles(db: AppDb, identity: Identity.UserStore, ctx: CurrentUser.RequestContext,
                      request: SetUserRoleRequest, user: ApplicationUser, commitRemove: bool, commitAdd: bool,
                      now: Instant) returns (r: Response<()>)
    requires db.Valid() && db.pending == [] && identity.Valid()
    requires user in identity.users && Identity.RoleExists(identity.roles, request.role)
    modifies db, identity
    ensures db.Valid() && identity.Valid()
    ensures identity.users == old(identity.users) && identity.roles == old(identity.roles)
    ensures var stored := Identity.FindRole(old(identity.roles), request.role).value;
      var held := Identity.RolesOf(old(identity.userRoles), user.id);
      var entry := AuditService.NewEntry(Some(ctx), "ADMIN_USER_ROLE_SET", "admin/users/role/" + request.role, user.patientId, now);
      if held != [] && !commitRemove then
        r == BadRequest && identity.userRoles == old(identity.userRoles) && db.tables == old(db.tables) && db.pending == []
      else if !commitAdd then
        r == BadRequest && identity.userRoles == Cleared(old(identity.userRoles), user.id)
        && db.tables == old(db.tables) && db.pending == []
      else
        && identity.userRoles == old(identity.userRoles)[user.id := [stored]]
        && if AuditFits(entry)
           then r == NoContent && db.pending == [] && db.tables == old(db.tables).(auditLogs := old(db.tables.auditLogs) + [entry])
           else r == Fault(SaveFailed(ConstraintViolation)) && db.tables == old(db.tables)
  {
    var cleared := ClearRoles(identity, user, commitRemove);
    if !cleared {
      return BadRequest;
    }
    ClearedThenAdded(old(identity.userRoles), user.id, Identity.FindRole(identity.roles, request.role).value);
    var add := identity.AddToRole(user, request.role, commitAdd);
    if add.Failure? {
      return Fault(RoleMissing);
    }
    if add.value == Identity.Failed {
      return BadRequest;
    }
    var logged := AuditService.LogAsync(db, Some(ctx), "ADMIN_USER_ROLE_SET", "admin/users/role/" + request.role, user.patientId, now);
    if logged.Failure? {
      return Fault(SaveFailed(logged.error));
    }
    r := NoContent;
  }

  /** `POST api/admin/users/role`: the account ends up holding exactly the requested role.
      `commitRemove` and `commitAdd` are whether the identity store's two updates commit. A
      failed removal changes nothing; a failed addition leaves the account with no role at
      all, since the removal before it is not undone. */
  method SetUserRole(db: AppDb, identity: Identity.UserStore, ctx: CurrentUser.RequestContext,
                     request: SetUserRoleRequest, commitRemove: bool, commitAdd: bool, now: Instant)
    returns (r: Response<()>)
    requires Policies.AdminOnly(ctx.user)
    requires db.Valid() && db.pending == [] && identity.Valid()
    modifies db, identity
    ensures db.Valid() && identity.Valid()
    ensures identity.users == old(identity.users) && identity.roles == old(identity.roles)
    ensures match Identity.FindByEmail(old(identity.users), request.email)
      case None => r == NotFound && identity.userRoles == old(identity.userRoles) && db.tables == old(db.tables) && db.pending == []
      case Some(user) =>
        match Identity.FindRole(old(identity.roles), request.role)
        case None => r == BadRequest && identity.userRoles == old(identity.userRoles) && db.tables == old(db.tables) && db.pending == []
        case Some(stored) =>
          var held := Identity.RolesOf(old(identity.userRoles), user.id);
          var entry := AuditService.NewEntry(Some(ctx), "ADMIN_USER_ROLE_SET", "admin/users/role/" + request.role, user.patientId, now);
          if held != [] && !commitRemove then
            r == BadRequest && identity.userRoles == old(identity.userRoles) && db.tables == old(db.tables) && db.pending == []
          else if !commitAdd then
            r == BadRequest && identity.userRoles == Cleared(old(identity.userRoles), user.id)
            && db.tables == old(db.tables) && db.pending == []
          else
            && identity.userRoles == old(identity.userRoles)[user.id := [stored]]
            && if AuditFits(entry)
               then r == NoContent && db.pending == [] && db.tables == old(db.tables).(auditLogs := old(db.tables.auditLogs) + [entry])
               else r == Fault(SaveFailed(ConstraintViolation)) && db.tables == old(db.tables)
  {
    var user := Identity.FindByEmail(identity.users, request.email);
    if user.None? {
      return NotFound;
    }
    if !Identity.RoleExists(identity.roles, request.role) {
      return BadRequest;
    }
    r := ReplaceRoles(db, identity, ctx, request, user.value, commitRemove, commitAdd, now);
  }

  /** Once a role is set, the account's next sign-in token carries that one role and no
      other, under its stored name. */
  lemma SetRoleThenSignIn(options: JwtTokenService.JwtOptions, codec: JwtTokenService.TokenCodec,
                          userRoles: map<Guid, seq<string>>, roles: seq<string>, user: ApplicationUser,
                          role: string, now: Instant, jti: Guid)
    requires JwtTokenService.Lawful(codec) && options.accessTokenMinutes >= 0
    requires Identity.RoleExists(roles, role)
    ensures var stored := Identity.FindRole(roles, role).value;
      var held := Identity.RolesOf(userRoles[user.id := [stored]], user.id);
      var token := AuthController.Answer(options, codec, user, held, now, jti).accessToken;
      var p := JwtTokenService.ValidateToken(options, codec, token, now);
      && EqualsIgnoreCase(stored, role)
      && p.Some? && CurrentUser.Roles(p.value) == [stored]
  {
    var stored := Identity.FindRole(roles, role).value;
    var held := Identity.RolesOf(userRoles[user.id := [stored]], user.id);
    assert held == [stored];
    AuthController.AnswerAuthenticatesTheUser(options, codec, user, held, now, jti, now);
    DistinctOfDistinctFree(held);
  }

  // ---------------------------------------------------------------------------------------
  // AuditLogs

  /** The ledger is read newest first. */
  predicate NewerLog(a: AuditLog, b: AuditLog) {
    a.timestamp >= b.timestamp
  }

  /** Whether a row passes the optional patient filter. */
  function AboutPatient(patientId: Option<Guid>): AuditLog -> bool {
    (x: AuditLog) => patientId.None? || x.patientId == patientId
  }

  /** The bound on the page size: between 1 and 500. */
  function PageSize(take: int): (n: int)
    ensures 1 <= n <= 500
    ensures 1 <= take <= 500 ==> n == take
  {
    Clamp(take, 1, 500)
  }

  /** The rows of the query, the filter applied and the order by timestamp, newest first. The
      database orders the rows that pass the filter; among equal timestamps any order may
      come back, and the model settles on one. */
  function Matching(logs: seq<AuditLog>, patientId: Option<Guid>): (r: seq<AuditLog>)
    ensures |r| == |Ordering.Filter(logs, AboutPatient(patientId))|
    ensures Ordering.SortedBy(r, NewerLog)
    ensures forall x :: multiset(r)[x] == if AboutPatient(patientId)(x) then multiset(logs)[x] else 0
  {
    var mine := Ordering.Filter(logs, AboutPatient(patientId));
    assert Ordering.TotalPreorder(NewerLog);
    Ordering.SortSorted(mine, NewerLog);
    Ordering.Sort(mine, NewerLog)
  }

  /** `GET api/admin/audit-logs?patientId=&take=`: the `PageSize(take)` newest rows about the
      patient when one is given (all of them when fewer match), newest first; no row left out
      is newer than a row returned. */
  function AuditLogQuery(logs: seq<AuditLog>, patientId: Option<Guid>, take: int): (r: seq<AuditLog>)
    ensures var count := |Ordering.Filter(logs, AboutPatient(patientId))|;
      |r| == if PageSize(take) <= count then PageSize(take) else count
    ensures multiset(r) <= multiset(logs)
    ensures Ordering.SortedBy(r, NewerLog)
    ensures forall i :: 0 <= i < |r| ==> r[i] in logs && AboutPatient(patientId)(r[i])
    ensures forall i :: 0 <= i < |logs| && AboutPatient(patientId)(logs[i]) && logs[i] !in r ==>
      forall j :: 0 <= j < |r| ==> r[j].timestamp >= logs[i].timestamp
  {
    var all := Matching(logs, patientId);
    Ordering.TakeSorted(all, PageSize(take), NewerLog);
    PageOfMatching(logs, patientId, PageSize(take));
    PageSizeOfMatching(logs, patientId, PageSize(take));
    Ordering.Take(all, PageSize(take))
  }

  /** A page cut from the front of the matching rows holds `n` rows, or every matching row
      when fewer match, and takes no ledger row more often than it is stored. */
  lemma PageSizeOfMatching(logs: seq<AuditLog>, patientId: Option<Guid>, n: int)
    ensures var count := |Ordering.Filter(logs, AboutPatient(patientId))|;
      var r := Ordering.Take(Matching(logs, patientId), n);
      && |r| == (if n <= 0 then 0 else if n < count then n else count)
      && multiset(r) <= multiset(logs)
  {
    var all := Matching(logs, patientId);
    assert multiset(all) <= multiset(logs);
  }

  /** A page cut from the front of the matching rows: each row is a matching row of the
      ledger, and every matching row left out is no newer than any row kept. */
  lemma PageOfMatching(logs: seq<AuditLog>, patientId: Option<Guid>, n: int)
    ensures var r := Ordering.Take(Matching(logs, patientId), n);
      && (forall i :: 0 <= i < |r| ==> r[i] in logs && AboutPatient(patientId)(r[i]))
      && (forall i :: 0 <= i < |logs| && AboutPatient(patientId)(logs[i]) && logs[i] !in r ==>
            forall j :: 0 <= j < |r| ==> r[j].timestamp >= logs[i].timestamp)
  {
    var all := Matching(logs, patientId);
    var r := Ordering.Take(all, n);
    forall i | 0 <= i < |r| ensures r[i] in logs && AboutPatient(patientId)(r[i]) {
      assert r[i] == all[i];
      assert r[i] in multiset(all);
    }
    forall i | 0 <= i < |logs| && AboutPatient(patientId)(logs[i]) && logs[i] !in r
      ensures forall j :: 0 <= j < |r| ==> r[j].timestamp >= logs[i].timestamp
    {
      assert logs[i] in multiset(logs);
      assert logs[i] in multiset(all);
      Ordering.TakeIsFront(all, n, NewerLog, logs[i]);
    }
  }

  /** When fewer rows match than the page holds, the query returns every one of them. */
  lemma ShortLedgerReturnedWhole(logs: seq<AuditLog>, patientId: Option<Guid>, take: int)
    requires |Ordering.Filter(logs, AboutPatient(patientId))| <= PageSize(take)
    ensures forall x :: multiset(AuditLogQuery(logs, patientId, take))[x] == if AboutPatient(patientId)(x) then multiset(logs)[x] else 0
  {
    var mine := Ordering.Filter(logs, AboutPatient(patientId));
    var all := Matching(logs, patientId);
    assert multiset(all) == multiset(mine);
    assert |all| == |mine|;
    assert AuditLogQuery(logs, patientId, take) == all;
  }

  /** `GET api/admin/audit-logs`: the page is read before the read itself is logged, so it
      never contains its own entry. */
  method AuditLogs(db: AppDb, ctx: CurrentUser.RequestContext, patientId: Option<Guid>, take: int, now: Instant)
    returns (r: Response<seq<AuditLog>>)
    requires Policies.AdminOnly(ctx.user)
    requires db.Valid() && db.pending == []
    modifies db
    ensures db.Valid()
    ensures var entry := AuditService.NewEntry(Some(ctx), "AUDITLOG_READ", "admin/audit-logs", patientId, now);
      if AuditFits(entry)
      then r == Ok(AuditLogQuery(old(db.tables.auditLogs), patientId, take)) && db.pending == []
           && db.tables == old(db.tables).(auditLogs := old(db.tables.auditLogs) + [entry])
      else r == Fault(SaveFailed(ConstraintViolation)) && db.tables == old(db.tables)
  {
    var logs := AuditLogQuery(db.tables.auditLogs, patientId, take);
    var logged := AuditService.LogAsync(db, Some(ctx), "AUDITLOG_READ", "admin/audit-logs", patientId, now);
    if logged.Failure? {
      return Fault(SaveFailed(logged.error));
    }
    r := Ok(logs);
  }
}
