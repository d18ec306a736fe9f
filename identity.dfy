/** The identity store as the core uses it through `UserManager` and `RoleManager`: the user
    accounts, the role names, and which roles each user holds.

    Look-ups by email and by role name ignore case, as the stores compare normalized
    (upper-cased) names. Password hashing and sign-in are not modelled: the outcome of a
    password check is an input. Whether the store's final update commits is an input too,
    so that the callers' handling of a failed update can be stated.
 */
module Identity {
  import opened Base
  import opened Text
  import opened Guids
  import opened Entities

  datatype IdentityResult = Succeeded | Failed

  /** An exception out of the identity store: `AddToRoleAsync` throws
      `InvalidOperationException` for a role that does not exist, and `CreateAsync` lets the
      `DbUpdateException` of a save that does not commit escape. */
  datatype IdentityFault = RoleDoesNotExist | StoreFailed

  predicate EmailIs(u: ApplicationUser, email: string) {
    u.email.Some? && EqualsIgnoreCase(u.email.value, email)
  }

  /** Position of the first user satisfying `p`, or `|users|` when there is none. */
  function FirstUser(users: seq<ApplicationUser>, p: ApplicationUser -> bool): (k: nat)
    ensures k <= |users|
    ensures k < |users| ==> p(users[k])
    ensures forall i :: 0 <= i < k ==> !p(users[i])
  {
    if users == [] then 0 else if p(users[0]) then 0 else 1 + FirstUser(users[1..], p)
  }

  function FindFirst(users: seq<ApplicationUser>, p: ApplicationUser -> bool): (r: Option<ApplicationUser>)
    ensures r.Some? ==> r.value in users && p(r.value)
    ensures r.None? <==> forall i :: 0 <= i < |users| ==> !p(users[i])
  {
    var k := FirstUser(users, p);
    if k < |users| then Some(users[k]) else None
  }

  /** `FindByEmailAsync(email)`. */
  function FindByEmail(users: seq<ApplicationUser>, email: string): (r: Option<ApplicationUser>)
    ensures r.Some? ==> r.value in users && EmailIs(r.value, email)
    ensures r.None? <==> forall i :: 0 <= i < |users| ==> !EmailIs(users[i], email)
  {
    FindFirst(users, (u: ApplicationUser) => EmailIs(u, email))
  }

  /** `FindByIdAsync(id.ToString())`. */
  function FindById(users: seq<ApplicationUser>, id: Guid): (r: Option<ApplicationUser>)
    ensures r.Some? ==> r.value in users && r.value.id == id
    ensures r.None? <==> forall i :: 0 <= i < |users| ==> users[i].id != id
  {
    FindFirst(users, (u: ApplicationUser) => u.id == id)
  }

  /** `Users.FirstOrDefaultAsync(u => u.PatientId == patientId)`. */
  function FindByPatientId(users: seq<ApplicationUser>, patientId: Guid): (r: Option<ApplicationUser>)
    ensures r.Some? ==> r.value in users && r.value.patientId == Some(patientId)
    ensures r.None? <==> forall i :: 0 <= i < |users| ==> users[i].patientId != Some(patientId)
  {
    FindFirst(users, (u: ApplicationUser) => u.patientId == Some(patientId))
  }

  /** The stored name of the role called `name` ignoring case, if there is one. */
  function FindRole(roles: seq<string>, name: string): (r: Option<string>)
    ensures r.Some? ==> r.value in roles && EqualsIgnoreCase(r.value, name)
    ensures r.None? <==> !ContainsIgnoreCase(roles, name)
  {
    if roles == [] then None
    else if EqualsIgnoreCase(roles[0], name) then Some(roles[0])
    else
      var r := FindRole(roles[1..], name);
      assert ContainsIgnoreCase(roles, name) <==> ContainsIgnoreCase(roles[1..], name) by {
        if ContainsIgnoreCase(roles, name) {
          var i :| 0 <= i < |roles| && EqualsIgnoreCase(roles[i], name);
          assert roles[1..][i - 1] == roles[i];
        }
        if ContainsIgnoreCase(roles[1..], name) {
          var i :| 0 <= i < |roles[1..]| && EqualsIgnoreCase(roles[1..][i], name);
          assert roles[i + 1] == roles[1..][i];
        }
      }
      r
  }

  /** `RoleExistsAsync(name)`. */
  predicate RoleExists(roles: seq<string>, name: string) {
    FindRole(roles, name).Some?
  }

  /** `GetRolesAsync(user)`: the names of the roles the user holds. */
  function RolesOf(userRoles: map<Guid, seq<string>>, id: Guid): seq<string> {
    if id in userRoles then userRoles[id] else []
  }

  /** The held roles left after removing `names`, compared ignoring case. */
  function Without(held: seq<string>, names: seq<string>): (r: seq<string>)
    ensures forall x :: x in r <==> x in held && !ContainsIgnoreCase(names, x)
  {
    if held == [] then []
    else
      var rest := Without(held[1..], names);
      assert forall x :: x in held <==> x == held[0] || x in held[1..];
      if ContainsIgnoreCase(names, held[0]) then rest else [held[0]] + rest
  }

  predicate IsLower(c: char) { 'a' <= c <= 'z' }
  predicate IsUpper(c: char) { 'A' <= c <= 'Z' }
  predicate IsAlphanumeric(c: char) { IsLower(c) || IsUpper(c) || IsDigit(c) }

  /** The password rules configured at startup: at least 12 characters, with a digit, a
      lower-case and an upper-case letter, and a character that is none of these. */
  predicate PasswordMeetsPolicy(password: string) {
    && |password| >= 12
    && (exists i :: 0 <= i < |password| && IsDigit(password[i]))
    && (exists i :: 0 <= i < |password| && IsLower(password[i]))
    && (exists i :: 0 <= i < |password| && IsUpper(password[i]))
    && (exists i :: 0 <= i < |password| && !IsAlphanumeric(password[i]))
  }

  /** What `CreateAsync(user, password)` checks: a non-blank email, well formed by the email
      syntax rules (an input here), used by no other account ignoring case, and a password
      that meets the policy. */
  predicate CreateAccepted(users: seq<ApplicationUser>, user: ApplicationUser, password: string, emailWellFormed: bool) {
    && !IsNullOrWhiteSpace(user.email)
    && emailWellFormed
    && (forall i :: 0 <= i < |users| ==> !EmailIs(users[i], user.email.value))
    && PasswordMeetsPolicy(password)
  }

  /** A password shorter than twelve characters is refused whatever it contains. */
  lemma ShortPasswordRefused(users: seq<ApplicationUser>, user: ApplicationUser, password: string, emailWellFormed: bool)
    requires |password| < 12
    ensures !CreateAccepted(users, user, password, emailWellFormed)
  {
  }

  /** An account whose email is already taken, in any letter case, is refused. */
  lemma DuplicateEmailRefused(users: seq<ApplicationUser>, user: ApplicationUser, password: string,
                              emailWellFormed: bool, i: nat)
    requires i < |users| && user.email.Some? && EmailIs(users[i], user.email.value)
    ensures !CreateAccepted(users, user, password, emailWellFormed)
  {
  }

  class UserStore {
    /** `AspNetUsers`. */
    var users: seq<ApplicationUser>
    /** `AspNetRoles`: the role names. */
    var roles: seq<string>
    /** `AspNetUserRoles`: the names of the roles each user holds. */
    var userRoles: map<Guid, seq<string>>

    ghost predicate Valid()
      reads this
    {
      && (forall i, j :: 0 <= i < j < |users| ==> users[i].id != users[j].id)
      && (forall i, j :: 0 <= i < j < |users| && users[j].email.Some? ==> !EmailIs(users[i], users[j].email.value))
      && PairwiseDistinctIgnoreCase(roles)
      && (forall id, k :: id in userRoles && 0 <= k < |userRoles[id]| ==> userRoles[id][k] in roles)
      && (forall id :: id in userRoles ==> exists i :: 0 <= i < |users| && users[i].id == id)
    }

    constructor (roleNames: seq<string>)
      requires PairwiseDistinctIgnoreCase(roleNames)
      ensures Valid() && users == [] && roles == roleNames && userRoles == map[]
    {
      users, roles, userRoles := [], roleNames, map[];
    }

    /** `CreateAsync(user, password)`: a user the checks refuse is reported as `Failed`; an
        accepted user is added and saved. The store's create does not catch a failed save, so
        a commit that does not go through escapes as an exception, not as `Failed`. Either
        way only a success changes anything. */
    method Create(user: ApplicationUser, password: string, emailWellFormed: bool, commitOk: bool)
      returns (r: Result<IdentityResult, IdentityFault>)
      requires Valid()
      requires forall i :: 0 <= i < |users| ==> users[i].id != user.id
      modifies this
      ensures Valid() && roles == old(roles) && userRoles == old(userRoles)
      ensures !CreateAccepted(old(users), user, password, emailWellFormed) ==> r == Success(Failed) && users == old(users)
      ensures CreateAccepted(old(users), user, password, emailWellFormed) && !commitOk ==>
        r == Failure(StoreFailed) && users == old(users)
      ensures CreateAccepted(old(users), user, password, emailWellFormed) && commitOk ==>
        r == Success(Succeeded) && users == old(users) + [user]
    {
      if !CreateAccepted(users, user, password, emailWellFormed) {
        return Success(Failed);
      }
      if !commitOk {
        return Failure(StoreFailed);
      }
      ghost var before := users;
      users := users + [user];
      forall id | id in userRoles ensures exists i :: 0 <= i < |users| && users[i].id == id {
        var i :| 0 <= i < |before| && before[i].id == id;
        assert users[i] == before[i];
      }
      r := Success(Succeeded);
    }

    /** `RemoveFromRolesAsync(user, names)`: fails, removing nothing, when the user does not
        hold one of the names or the store does not commit. */
    method RemoveFromRoles(user: ApplicationUser, names: seq<string>, commitOk: bool) returns (r: IdentityResult)
      requires Valid() && user in users
      modifies this
      ensures Valid() && users == old(users) && roles == old(roles)
      ensures var held := RolesOf(old(userRoles), user.id);
        if (forall i :: 0 <= i < |names| ==> ContainsIgnoreCase(held, names[i])) && commitOk
        then r == Succeeded && userRoles == old(userRoles)[user.id := Without(held, names)]
        else r == Failed && userRoles == old(userRoles)
    {
      var held := RolesOf(userRoles, user.id);
      var i := 0;
      while i < |names|
        invariant 0 <= i <= |names|
        invariant forall k :: 0 <= k < i ==> ContainsIgnoreCase(held, names[k])
      {
        if !ContainsIgnoreCase(held, names[i]) {
          return Failed;
        }
        i := i + 1;
      }
      if !commitOk {
        return Failed;
      }
      var left := Without(held, names);
      forall k | 0 <= k < |left| ensures left[k] in roles {
        assert left[k] in held;
        var j :| 0 <= j < |held| && held[j] == left[k];
      }
      userRoles := userRoles[user.id := left];
      r := Succeeded;
    }

    /** `AddToRoleAsync(user, name)`: throws for a role that does not exist; fails when the
        user already holds it or the store does not commit; otherwise the user holds the role
        under its stored name. */
    method AddToRole(user: ApplicationUser, name: string, commitOk: bool) returns (r: Result<IdentityResult, IdentityFault>)
      requires Valid() && user in users
      modifies this
      ensures Valid() && users == old(users) && roles == old(roles)
      ensures var held := RolesOf(old(userRoles), user.id);
        match FindRole(old(roles), name)
        case None => r == Failure(RoleDoesNotExist) && userRoles == old(userRoles)
        case Some(stored) =>
          if !ContainsIgnoreCase(held, stored) && commitOk
          then r == Success(Succeeded) && userRoles == old(userRoles)[user.id := held + [stored]]
          else r == Success(Failed) && userRoles == old(userRoles)
    {
      var stored := FindRole(roles, name);
      if stored.None? {
        return Failure(RoleDoesNotExist);
      }
      var held := RolesOf(userRoles, user.id);
      if ContainsIgnoreCase(held, stored.value) || !commitOk {
        return Success(Failed);
      }
      userRoles := userRoles[user.id := held + [stored.value]];
      r := Success(Succeeded);
    }
  }

  lemma {:induction false} WithoutCovered(held: seq<string>, names: seq<string>)
    requires forall i :: 0 <= i < |held| ==> ContainsIgnoreCase(names, held[i])
    ensures Without(held, names) == []
  {
    if held != [] {
      assert ContainsIgnoreCase(names, held[0]);
      WithoutCovered(held[1..], names);
    }
  }

  /** Removing every role a user holds leaves the user with none. */
  lemma WithoutAll(held: seq<string>)
    ensures Without(held, held) == []
  {
    forall i | 0 <= i < |held| ensures ContainsIgnoreCase(held, held[i]) {
      assert EqualsIgnoreCase(held[i], held[i]);
    }
    WithoutCovered(held, held);
  }
}
