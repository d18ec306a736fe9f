# EhrSecure authorization and record-keeping core, in Dafny

This project models the core of the EhrSecure API, an electronic-health-record service
written in ASP.NET Core with Entity Framework. The model covers:

- who may read a patient's clinical records: the consent decision, the route policies and
  the controllers' own checks;
- how every read, write and refusal is written to the audit ledger;
- the one-time-code (OTP) table for patient sign-in;
- the append-only rule on medical records and audit rows;
- patient notifications;
- the framing of the encrypted record fields;
- access-token claims and how they are read back from a principal.

## Store

- **The database** is the class `Store.AppDb`. It holds the committed `tables` and the
  change tracker's `pending` entries.
- **Saving.** `SaveChanges` and `SaveChangesAsync` both run `EnforceAppendOnly` (a loop over
  the pending entries), then commit. A save that fails leaves the committed tables as they were.
- **Constraints on a commit.** Keys must be distinct. The MRN must be unique and at most 64
  characters. There is at most one consent row per patient. Records must point at an
  existing patient. Columns must fit their `HasMaxLength` bounds.
- **One request.** Each controller action starts with an empty change tracker, as a
  request-scoped context does.

## Controllers

- **Actions.** Each controller action is a method over the store. Where the action needs the
  identity store, it also takes `Identity.UserStore`, which holds accounts, role names and
  each account's roles.
- **Results.** An action's `ensures` states the HTTP outcome:
  - `Ok`, `Created`, `NoContent`, `BadRequest`, `Unauthorized`, `Forbid` and `NotFound`;
  - `Fault` for an exception the action does not catch: a failed save, a failed
    decryption, `AddToRoleAsync` throwing for an unknown role, or `CreateAsync` throwing
    because its save did not commit.
- **New state.** An action's `ensures` also states the exact committed tables afterwards:
  which rows were added or changed, and the audit entries in the order they were appended.
- **Separate saves.** The primary save, the audit append and the notification are separate
  saves in the source. The model keeps them separate, so a failing later step leaves the
  earlier commits in place.

## Inputs to the model

- **Time.** The clock is an `Instant` parameter: whole seconds, and one instant per request.
- **Fresh values.** Fresh Guids, the random OTP draw and the AES nonces are parameters.
- **Identity outcomes.** The outcomes of the identity store's own checks are boolean
  parameters: the password check, email syntax, and whether a create, add or remove commits.
- **Primitives.** AES-GCM, Base64, UTF-8 and token signing are function-valued fields of a
  datatype. A `Lawful` predicate states the laws the proofs rely on: decryption inverts
  encryption, Base64 decoding inverts encoding, and reading a token back inverts writing it.
- **Route policies.** The route-level policies of `Program.cs` (lines 84-90) become
  preconditions on the controller actions. `ClinicalStaff` admits a Doctor or a Nurse, so a
  pure Admin never reaches `GetForPatient`.

## Model

| member | source | states |
|---|---|---|
| Base.Clamp | EhrSecure.Api/Controllers/AdminController.cs:91 | `Math.Clamp`: the result lies in `[min, max]`; it is the value itself when that is in range, and the violated bound otherwise |
| Text.FoldCase | EhrSecure.Api/Infrastructure/Security/CurrentUserService.cs:38-40 | case folding keeps the length and upper-cases each ASCII letter, position by position |
| Text.EqualsIgnoreCaseMeaning | EhrSecure.Api/Infrastructure/Security/CurrentUserService.cs:40 | two strings are equal ignoring case exactly when they have the same length and agree, position by position, after folding |
| Text.ContainsAppend | EhrSecure.Api/Infrastructure/Security/CurrentUserService.cs:40 | a list extended by one name contains `x` ignoring case exactly when the old list does or the new name equals `x` |
| Text.DistinctAppend | EhrSecure.Api/Infrastructure/Security/CurrentUserService.cs:38 | appending a name that no element equals ignoring case keeps the list free of case duplicates |
| Text.DistinctIgnoreCase | EhrSecure.Api/Infrastructure/Security/CurrentUserService.cs:38 | `Distinct(StringComparer.OrdinalIgnoreCase)`: the result is no longer than the input, its elements come from the input, it contains the same names ignoring case, and no two of its elements are equal ignoring case |
| Text.DistinctOfDistinctFree | EhrSecure.Api/Infrastructure/Security/CurrentUserService.cs:38 | a list already free of case duplicates is returned unchanged |
| Text.DistinctIdempotent | EhrSecure.Api/Infrastructure/Security/CurrentUserService.cs:38 | de-duplicating twice is the same as de-duplicating once |
| Text.DistinctKeepsFirstSpellings | EhrSecure.Api/Infrastructure/Security/CurrentUserService.cs:38 | a string is in the de-duplicated list exactly when it is the first spelling of its case-insensitive class somewhere in the input |
| Text.IndexOf | EhrSecure.Api/Infrastructure/Audit/AuditService.cs:30 | the position of the first occurrence of a character, or the length when it is absent |
| Text.Split | EhrSecure.Api/Infrastructure/Audit/AuditService.cs:30 | splitting at a separator yields at least one piece (the reverse of the "," join) |
| Text.SplitJoin | EhrSecure.Api/Infrastructure/Audit/AuditService.cs:30 | `string.Join(",", xs)` is undone by splitting at ",", when the list is non-empty and no element contains a comma |
| Text.SplitWithout | EhrSecure.Api/Infrastructure/Audit/AuditService.cs:30 | a string without the separator splits into itself alone |
| Text.SplitAtFirst | EhrSecure.Api/Infrastructure/Audit/AuditService.cs:30 | a string splits first at its first separator |
| Text.DecimalString | EhrSecure.Api/Infrastructure/Auth/OtpService.cs:18 | `int.ToString()` for a natural number: at least one character, every character a decimal digit |
| Text.DecimalRoundTrip | EhrSecure.Api/Infrastructure/Auth/OtpService.cs:18 | the digits of `n` spell `n` |
| Text.DecimalLength | EhrSecure.Api/Infrastructure/Auth/OtpService.cs:18 | a number between `10^(k-1)` and `10^k` has exactly `k` digits |
| Guids.Hex | EhrSecure.Api/Infrastructure/Auth/JwtTokenService.cs:27 | a number written with exactly `width` hexadecimal digits |
| Guids.HexNumber | EhrSecure.Api/Infrastructure/Security/CurrentUserService.cs:23 | a string of `k` hexadecimal digits spells a number below `16^k` |
| Guids.HexRoundTrip | EhrSecure.Api/Infrastructure/Security/CurrentUserService.cs:23 | reading back the hexadecimal digits of a number gives the number |
| Guids.HyphenateInverse | EhrSecure.Api/Infrastructure/Security/CurrentUserService.cs:23 | the 8-4-4-4-12 hyphen layout is undone by removing the hyphens |
| Guids.Hyphenate | EhrSecure.Api/Infrastructure/Auth/JwtTokenService.cs:27 | the "D" format lays 32 hexadecimal digits out as 36 characters |
| Guids.Dehyphenate | EhrSecure.Api/Infrastructure/Security/CurrentUserService.cs:23 | dropping the four hyphens of a 36-character form leaves the 32 digits |
| Guids.ParseToString | EhrSecure.Api/Infrastructure/Security/CurrentUserService.cs:23-34 | `Guid.TryParse(g.ToString())` gives back `g`, so an id written into a claim reads back |
| Guids.ToStringInjective | EhrSecure.Api/Infrastructure/Auth/JwtTokenService.cs:27 | distinct Guids have distinct text forms |
| Ordering.Filter | EhrSecure.Api/Controllers/MedicalRecordsController.cs:96 | `Where(p)`: exactly the elements satisfying `p`, each as often as in the input, all from the input |
| Ordering.Insert | EhrSecure.Api/Controllers/MedicalRecordsController.cs:97 | inserting adds exactly one element: the result has that element added to the input's multiset |
| Ordering.Sort | EhrSecure.Api/Controllers/MedicalRecordsController.cs:97 | `OrderBy`/`OrderByDescending` reorder without adding or dropping anything: the result is a permutation of the input |
| Ordering.InsertSorted | EhrSecure.Api/Controllers/MedicalRecordsController.cs:97 | inserting into a sorted sequence under a total preorder keeps it sorted |
| Ordering.SortSorted | EhrSecure.Api/Controllers/MedicalRecordsController.cs:97 | the sort's result is ordered by any total preorder |
| Ordering.Take | EhrSecure.Api/Controllers/AdminController.cs:99 | `Take(n)`: the first `n` elements, none for `n <= 0` and all of them when there are fewer, so no element more often than in the input |
| Ordering.TakeSorted | EhrSecure.Api/Controllers/AdminController.cs:99 | a prefix of a sorted sequence is sorted |
| Ordering.DescendingIsTotalPreorder | EhrSecure.Api/Controllers/MedicalRecordsController.cs:97 | ordering by a descending key is a total preorder |
| Store.ReplaceKey | EhrSecure.Api/Infrastructure/AppDbContext.cs:86-96 | an update by key replaces every row with that key and keeps every other row |
| Store.SaveOutcome | EhrSecure.Api/Infrastructure/AppDbContext.cs:86-110 | the outcome of either save override; a successful save always leaves tables that satisfy every key, index, length and foreign-key constraint |
| Store.ApplyAllExtends | EhrSecure.Api/Infrastructure/AppDbContext.cs:98-110 | applying a change set that respects the append-only rule leaves the old record and audit tables as prefixes of the new ones |
| Store.SaveExtends | EhrSecure.Api/Infrastructure/AppDbContext.cs:86-110 | across a successful save, the record and audit sequences only grow: each earlier state is a prefix of the later one |
| Store.SaveRejectsAppendOnlyBreach | EhrSecure.Api/Infrastructure/AppDbContext.cs:98-110 | a change set holding a Modified or Deleted medical record or audit row fails with the append-only error, whatever else it holds |
| Store.ExtendsTransitive | EhrSecure.Api/Infrastructure/AppDbContext.cs:98-110 | the prefix relation composes, so it holds over any number of saves |
| Store.KeysDistinctAppend | EhrSecure.Api/Infrastructure/AppDbContext.cs:27 | appending a row with an unused key keeps the keys distinct |
| Store.KeysDistinctReplace | EhrSecure.Api/Infrastructure/AppDbContext.cs:27 | replacing a row by key keeps the keys distinct |
| Store.ReplaceKeyAt | EhrSecure.Api/Infrastructure/AppDbContext.cs:27 | in a table with distinct keys, an update by key replaces exactly the one row with that key |
| Store.SaveAddedAudit | EhrSecure.Api/Infrastructure/AppDbContext.cs:55-60 | appending an audit row commits exactly when its columns fit their maximum lengths, and then appends exactly that row |
| Store.SaveAddedNotification | EhrSecure.Api/Infrastructure/AppDbContext.cs:79-82 | appending a notification with an unused key commits exactly when its columns fit |
| Store.SaveAddedOtp | EhrSecure.Api/Infrastructure/AppDbContext.cs:72 | appending an OTP row with an unused key and a code of at most 10 characters commits and appends exactly that row |
| Store.SaveAddedRecord | EhrSecure.Api/Infrastructure/AppDbContext.cs:36-41 | appending a medical record with an unused key for an existing patient commits; the append-only rule admits additions |
| Store.SaveModifiedOtp | EhrSecure.Api/Infrastructure/AppDbContext.cs:98-110 | a modified OTP row that keeps its id and code commits in place; modifications of types that are not append-only pass the check |
| Store.SaveModifiedConsent | EhrSecure.Api/Infrastructure/AppDbContext.cs:47-48 | a modified consent row that keeps its id and patient commits in place |
| Store.SaveModifiedNotification | EhrSecure.Api/Infrastructure/AppDbContext.cs:79-82 | a modified notification that keeps its id and fits its columns commits in place |
| Store.SaveModifiedPatient | EhrSecure.Api/Infrastructure/AppDbContext.cs:27-31 | a modified patient row that keeps its id and MRN and fits its columns commits in place |
| Store.AppendedPatientFits | EhrSecure.Api/Infrastructure/AppDbContext.cs:27-31 | appending a fitting patient with a new id and an unused MRN keeps ids and MRNs unique and every column in bounds, and keeps every existing id |
| Store.AddedPatientWithConsentFits | EhrSecure.Api/Infrastructure/AppDbContext.cs:27-48 | every table constraint holds after a new patient and its consent row are added together |
| Store.SaveAddedPatientWithConsent | EhrSecure.Api/Infrastructure/AppDbContext.cs:28-47 | adding a patient and its consent in one save commits both exactly when the MRN is unused and the patient's columns fit; otherwise it fails with a constraint violation |
| Store.FindPatient | EhrSecure.Api/Controllers/PatientsController.cs:57 | `FindAsync(id)`: the position of a patient with that id, or None exactly when no patient has it |
| Store.FindPatientByMrn | EhrSecure.Api/Controllers/ReceptionistController.cs:57 | the position of a patient with that MRN, or None exactly when the MRN is unused |
| Store.FindConsent | EhrSecure.Api/Controllers/ConsentsController.cs:37-57 | `SingleOrDefault(x => x.PatientId == p)`: the position of the patient's consent row, or None exactly when there is none |
| Store.ConsentOfUnique | EhrSecure.Api/Infrastructure/AppDbContext.cs:47 | with at most one consent row per patient, the row found is the patient's only row |
| Store.AppDb.constructor | EhrSecure.Api/Infrastructure/AppDbContext.cs:10-12 | a new context holds empty tables and tracks nothing |
| Store.AppDb.Add | EhrSecure.Api/Controllers/MedicalRecordsController.cs:67 | `DbSet.Add` tracks the entity as Added and commits nothing |
| Store.AppDb.MarkModified | EhrSecure.Api/Controllers/ConsentsController.cs:63-65 | assigning a property of a tracked entity marks it Modified and commits nothing |
| Store.AppDb.EnforceAppendOnly | EhrSecure.Api/Infrastructure/AppDbContext.cs:98-110 | the loop passes exactly when no pending entry modifies or deletes a medical record or an audit row |
| Store.AppDb.BaseSaveChanges | EhrSecure.Api/Infrastructure/AppDbContext.cs:89-95 | the base save commits the pending entries in order and clears the tracker, or changes nothing and keeps them when the commit fails |
| Store.AppDb.SaveChanges | EhrSecure.Api/Infrastructure/AppDbContext.cs:86-90 | the synchronous override runs the append-only check, then the base save |
| Store.AppDb.SaveChangesAsync | EhrSecure.Api/Infrastructure/AppDbContext.cs:92-96 | the asynchronous override has exactly the same outcome as the synchronous one |
| Store.AddPatientWithConsent | EhrSecure.Api/Controllers/ReceptionistController.cs:83-95 | a new patient and its consent row are committed together, or neither is when the MRN is taken or a column does not fit |
| AuditService.RolesReadBack | EhrSecure.Api/Infrastructure/Audit/AuditService.cs:30 | `ActorRoles` is the caller's de-duplicated roles joined by ","; splitting it gives those roles back when none contains a comma |
| AuditService.AnonymousEntry | EhrSecure.Api/Infrastructure/Audit/AuditService.cs:22-36 | with no caller and no request, the entry has no actor id, an empty email, empty roles, an empty address and an empty user agent, and carries the given action, resource, patient and time |
| AuditService.LogAsync | EhrSecure.Api/Infrastructure/Audit/AuditService.cs:20-41 | each call appends exactly one entry, with the caller, the action, the resource, the patient and the time, through the append-only save; if its columns do not fit, nothing is committed |
| ConsentService.DecideIsPermits | EhrSecure.Api/Infrastructure/Consent/ConsentService.cs:16-42 | the early-return chain over the de-duplicated roles decides exactly the policy formula over the roles as given |
| ConsentService.AdminAlwaysAllowed | EhrSecure.Api/Infrastructure/Consent/ConsentService.cs:18-23 | roles holding Admin, in any letter case, are allowed whether or not a consent row exists |
| ConsentService.NoConsentRowDenies | EhrSecure.Api/Infrastructure/Consent/ConsentService.cs:25-29 | a non-admin is denied for a patient without a consent row, whatever the roles |
| ConsentService.DoctorJudgedByAllowDoctors | EhrSecure.Api/Infrastructure/Consent/ConsentService.cs:31-34 | a non-admin Doctor (any case) gets exactly `AllowDoctors`, even when also a Nurse |
| ConsentService.NurseJudgedByAllowNurses | EhrSecure.Api/Infrastructure/Consent/ConsentService.cs:36-39 | a Nurse who is neither Admin nor Doctor gets exactly `AllowNurses` |
| ConsentService.OtherRolesDenied | EhrSecure.Api/Infrastructure/Consent/ConsentService.cs:41 | roles with none of Admin, Doctor and Nurse are always denied |
| ConsentService.ActorIrrelevant | EhrSecure.Api/Infrastructure/Consent/ConsentService.cs:16-42 | the decision does not depend on the actor's id |
| ConsentService.OnlyOwnConsentMatters | EhrSecure.Api/Infrastructure/Consent/ConsentService.cs:25 | the decision reads only the patient's own consent row: two databases that agree on that row give the same answer |
| ConsentService.RoleNamesDiffer | EhrSecure.Api/Infrastructure/Consent/ConsentService.cs:20-36 | the three role names the decision tests are pairwise different ignoring case |
| ConsentService.DoctorRoleOverridesNurse | EhrSecure.Api/Infrastructure/Consent/ConsentService.cs:31-39 | because Doctor is tested before Nurse, a Nurse allowed by `AllowNurses` is denied once also made a Doctor when `AllowDoctors` is false |
| CurrentUser.FirstOfKind | EhrSecure.Api/Infrastructure/Security/CurrentUserService.cs:22-33 | the position of the first claim whose type matches ignoring case, or the number of claims |
| CurrentUser.FindFirstValue | EhrSecure.Api/Infrastructure/Security/CurrentUserService.cs:22-33 | `FindFirstValue(type)`: None exactly when no claim has the type; otherwise the value of the first such claim |
| CurrentUser.RoleValues | EhrSecure.Api/Infrastructure/Security/CurrentUserService.cs:38 | the role-claim values are exactly the values of claims whose type is the role type |
| CurrentUser.Roles | EhrSecure.Api/Infrastructure/Security/CurrentUserService.cs:38 | `Roles` has no two names equal ignoring case, and holds a name (ignoring case) exactly when some role claim does |
| CurrentUser.IsInRoleMeaning | EhrSecure.Api/Infrastructure/Security/CurrentUserService.cs:40 | `IsInRole(r)` holds exactly when some role claim's value equals `r` ignoring case |
| CurrentUser.NoRequestIsAnonymous | EhrSecure.Api/Infrastructure/Security/CurrentUserService.cs:16 | with no HTTP context the principal is empty: no id, email, patient or roles |
| CurrentUser.UserIdFromSub | EhrSecure.Api/Infrastructure/Security/CurrentUserService.cs:18-25 | with no NameIdentifier claim, `UserId` is read from the `sub` claim when it parses as a Guid |
| CurrentUser.NameIdentifierShadowsSub | EhrSecure.Api/Infrastructure/Security/CurrentUserService.cs:22-23 | a NameIdentifier claim that is not a Guid leaves `UserId` null even when a valid `sub` follows |
| Policies.PolicyRoleIsServiceRole | EhrSecure.Api/Program.cs:84-90 | a role claim that passes a route policy also passes the service's case-insensitive check |
| Policies.LowerCaseAdminPassesOnlyTheService | EhrSecure.Api/Program.cs:84 | the two checks differ: a role claim "admin" passes `IsInRole("Admin")` but not the AdminOnly policy |
| FieldEncryption.Configure | EhrSecure.Api/Infrastructure/Crypto/AesGcmFieldEncryptionService.cs:11-23 | construction succeeds exactly when the key is non-blank and Base64-decodes to 32 bytes, and then keeps the decoded key; a blank key gives the not-configured error |
| FieldEncryption.UnframeFrame | EhrSecure.Api/Infrastructure/Crypto/AesGcmFieldEncryptionService.cs:37-55 | splitting at offsets 12 and 28 undoes the nonce, tag, ciphertext layout |
| FieldEncryption.FrameUnframe | EhrSecure.Api/Infrastructure/Crypto/AesGcmFieldEncryptionService.cs:48-55 | every payload that passes the length check is such a frame |
| FieldEncryption.BlockCopy | EhrSecure.Api/Infrastructure/Crypto/AesGcmFieldEncryptionService.cs:38-40 | `Buffer.BlockCopy` overwrites exactly `count` bytes at the offset and leaves the rest of the buffer alone |
| FieldEncryption.EncryptToBase64 | EhrSecure.Api/Infrastructure/Crypto/AesGcmFieldEncryptionService.cs:25-43 | the buffer filled by three block copies is the nonce, then the tag, then the ciphertext, returned as Base64 |
| FieldEncryption.SealedLength | EhrSecure.Api/Infrastructure/Crypto/AesGcmFieldEncryptionService.cs:29-40 | the payload is 28 bytes longer than the UTF-8 plaintext and begins with the nonce |
| FieldEncryption.ShortPayloadRejected | EhrSecure.Api/Infrastructure/Crypto/AesGcmFieldEncryptionService.cs:48-51 | a payload shorter than 28 bytes is refused before the cipher is consulted |
| FieldEncryption.DecryptEncrypt | EhrSecure.Api/Infrastructure/Crypto/AesGcmFieldEncryptionService.cs:25-64 | decrypting what was encrypted under the same key gives the plaintext back, whatever the nonce |
| Identity.FirstUser | EhrSecure.Api/Controllers/AuthController.cs:176 | the position of the first account satisfying a condition, or the number of accounts |
| Identity.FindFirst | EhrSecure.Api/Controllers/AuthController.cs:176 | the first account satisfying a condition, or None exactly when none does |
| Identity.FindByEmail | EhrSecure.Api/Controllers/AuthController.cs:47 | `FindByEmailAsync`: an account with that email ignoring case, or None exactly when there is none |
| Identity.FindById | EhrSecure.Api/Controllers/ReceptionistController.cs:65 | `FindByIdAsync`: the account with that id, or None exactly when there is none |
| Identity.FindByPatientId | EhrSecure.Api/Controllers/AuthController.cs:176 | an account linked to the patient (the first in table order here), or None exactly when none is |
| Identity.FindRole | EhrSecure.Api/Controllers/AdminController.cs:62 | the stored role whose name equals the given one ignoring case, or None exactly when no role does |
| Identity.Without | EhrSecure.Api/Controllers/AdminController.cs:70 | the roles left after removal are exactly the held roles not named in the list, ignoring case |
| Identity.WithoutCovered | EhrSecure.Api/Controllers/AdminController.cs:67-70 | removing a list that names every held role leaves none |
| Identity.WithoutAll | EhrSecure.Api/Controllers/AdminController.cs:67-70 | removing all of an account's current roles leaves it with none |
| Identity.ShortPasswordRefused | EhrSecure.Api/Program.cs:35 | a password shorter than 12 characters is refused whatever it contains |
| Identity.DuplicateEmailRefused | EhrSecure.Api/Program.cs:33 | an account whose email is already taken, in any case, is refused |
| Identity.UserStore.constructor | EhrSecure.Api/Program.cs:30-44 | a new identity store holds the given role names (no two equal ignoring case), no accounts and no role assignments |
| Identity.UserStore.Create | EhrSecure.Api/Controllers/AuthController.cs:92 | `CreateAsync` adds exactly the account when the checks pass and the store commits; a refused account is `Failed`; a save that does not commit is a store fault, not `Failed`; neither failure changes anything |
| Identity.UserStore.RemoveFromRoles | EhrSecure.Api/Controllers/AdminController.cs:70 | `RemoveFromRolesAsync` removes the named roles when the account holds all of them and the store commits, and otherwise removes nothing |
| Identity.UserStore.AddToRole | EhrSecure.Api/Controllers/AdminController.cs:77 | `AddToRoleAsync` throws for an unknown role; otherwise it adds the role under its stored name, unless the account already holds it or the store does not commit |
| JwtTokenService.RoleClaims | EhrSecure.Api/Infrastructure/Auth/JwtTokenService.cs:37-40 | one role claim per given role, in order |
| JwtTokenService.CreateAccessToken | EhrSecure.Api/Infrastructure/Auth/JwtTokenService.cs:20-54 | the expiry is the issue time plus `AccessTokenMinutes` and is returned; the token is issued at that time, with not-before set to the issue time, and carries the issuer, the audience and the claim list |
| JwtTokenService.IssuedTokenLifetime | EhrSecure.Api/Infrastructure/Auth/JwtTokenService.cs:56-79 | an issued token validates, as its own claims, exactly from 30 s before issue until 30 s after expiry, and gives null at every other instant |
| JwtTokenService.ForeignTokenRefused | EhrSecure.Api/Infrastructure/Auth/JwtTokenService.cs:59-78 | a token from another issuer or for another audience gives null, whatever its lifetime |
| JwtTokenService.RoleValuesAppend | EhrSecure.Api/Infrastructure/Auth/JwtTokenService.cs:25-40 | the role values of two claim lists placed one after the other are the first list's role values followed by the second's |
| JwtTokenService.RoleValuesOfRoleClaims | EhrSecure.Api/Infrastructure/Auth/JwtTokenService.cs:37-40 | the role claims read back as the roles they were written from |
| JwtTokenService.IssuedClaimKinds | EhrSecure.Api/Infrastructure/Auth/JwtTokenService.cs:25-40 | every claim of a token has one of the five issued claim types |
| JwtTokenService.NoClaimOfLength | EhrSecure.Api/Infrastructure/Auth/JwtTokenService.cs:25-40 | no issued claim matches a type whose length none of the issued types has |
| JwtTokenService.UserIdReadBack | EhrSecure.Api/Infrastructure/Auth/JwtTokenService.cs:27 | the `sub` claim makes `UserId` read back the user's id |
| JwtTokenService.EmailReadBack | EhrSecure.Api/Infrastructure/Auth/JwtTokenService.cs:28 | the email claim makes `Email` read back the email |
| JwtTokenService.PatientIdReadBack | EhrSecure.Api/Infrastructure/Auth/JwtTokenService.cs:32-35 | the patient-id claim is present exactly when a patient id is given, so `PatientId` reads back the given value or null |
| JwtTokenService.NoRoleValues | EhrSecure.Api/Infrastructure/Auth/JwtTokenService.cs:25-35 | claims of other types contribute no role values |
| JwtTokenService.RolesReadBack | EhrSecure.Api/Infrastructure/Auth/JwtTokenService.cs:37-40 | the token holds one role claim per case-insensitively distinct role, so `Roles` reads back the de-duplicated roles |
| JwtTokenService.ClaimsReadBack | EhrSecure.Api/Infrastructure/Auth/JwtTokenService.cs:25-40 | a token's principal reads back the id, the email, the patient and the de-duplicated roles it was issued for |
| AdminController.ByEmailIsTotalPreorder | EhrSecure.Api/Controllers/AdminController.cs:35 | ordering accounts by email under a total collation order is a total preorder |
| AdminController.ViewsOf | EhrSecure.Api/Controllers/AdminController.cs:37-41 | the `foreach` builds one view per account, in the order given, each with the account's roles |
| AdminController.ListUsers | EhrSecure.Api/Controllers/AdminController.cs:35-41 | the listing has one row per account, names every account and no other, no two rows share an id, and is in email order |
| AdminController.PermutedIdsDistinct | EhrSecure.Api/Controllers/AdminController.cs:35 | reordering the accounts by email keeps their ids distinct, so no account is listed twice |
| AdminController.ListingIsTheSortedAccounts | EhrSecure.Api/Controllers/AdminController.cs:35-41 | views built row by row from the email-sorted accounts give one row per account, every account and only those, in email order |
| AdminController.Users | EhrSecure.Api/Controllers/AdminController.cs:32-45 | every account once, with its roles, in email order; one ADMIN_USERS_READ entry is appended with no patient |
| AdminController.Cleared | EhrSecure.Api/Controllers/AdminController.cs:67-75 | after clearing, the account holds no role and every other account's roles are unchanged |
| AdminController.ClearedThenAdded | EhrSecure.Api/Controllers/AdminController.cs:67-81 | clearing, then adding the one role, sets the account's roles to exactly that role |
| AdminController.ClearRoles | EhrSecure.Api/Controllers/AdminController.cs:67-75 | the roles are removed when the account holds any; the step fails, changing nothing, only when a needed removal does not commit |
| AdminController.ReplaceRoles | EhrSecure.Api/Controllers/AdminController.cs:67-85 | on success the roles become exactly `{Role}` and one ADMIN_USER_ROLE_SET entry is appended; a failed add after a removal leaves the account with no role, and nothing is rolled back |
| AdminController.SetUserRole | EhrSecure.Api/Controllers/AdminController.cs:53-86 | an unknown email gives NotFound and an unknown role BadRequest, with roles and ledger untouched; otherwise as `ReplaceRoles` |
| AdminController.SetRoleThenSignIn | EhrSecure.Api/Controllers/AdminController.cs:77-83 | after a role is set, the account's next token carries exactly that one role, under its stored name |
| AdminController.PageSize | EhrSecure.Api/Controllers/AdminController.cs:91 | `take` is clamped into `[1, 500]` and kept when already in range |
| AdminController.Matching | EhrSecure.Api/Controllers/AdminController.cs:93-97 | the ledger rows passing the patient filter, each as often as in the ledger, newest first |
| AdminController.PageSizeOfMatching | EhrSecure.Api/Controllers/AdminController.cs:93-99 | a page of `n` rows cut from the matching rows holds `n` rows, or every matching row when fewer match, and takes no ledger row more often than it is stored |
| Ordering.TakeIsFront | EhrSecure.Api/Controllers/AdminController.cs:93-99 | a prefix of a sorted sequence is its front: an element left out comes, by the order, at or after every element kept |
| AdminController.AuditLogQuery | EhrSecure.Api/Controllers/AdminController.cs:91-99 | exactly `min(PageSize(take), matching count)` rows, no ledger row more often than it is stored, newest first, all passing the filter; every passing row left out is no newer than any row returned |
| AdminController.PageOfMatching | EhrSecure.Api/Controllers/AdminController.cs:93-99 | a page cut from the matching rows holds only matching ledger rows, and every matching row left out is no newer than any row kept |
| AdminController.ShortLedgerReturnedWhole | EhrSecure.Api/Controllers/AdminController.cs:93-99 | when no more rows match than the page holds, every matching row is returned |
| AdminController.AuditLogs | EhrSecure.Api/Controllers/AdminController.cs:88-103 | the page is read from the ledger before AUDITLOG_READ is appended, so the read's own entry is never in it |
| AuthController.SignIn | EhrSecure.Api/Controllers/AuthController.cs:59-71 | the token is issued, one audit entry with the account's patient is appended, and the answer carries the token, its expiry, the email, the roles and the patient |
| AuthController.AnswerAuthenticatesTheUser | EhrSecure.Api/Controllers/AuthController.cs:60-71 | until it expires, the answered token authenticates its holder as the account: its id, its patient and its de-duplicated roles |
| AuthController.Login | EhrSecure.Api/Controllers/AuthController.cs:43-72 | an unknown email and a failed password give the same Unauthorized, with no token and no entry; success appends one AUTH_LOGIN entry and answers with the issued expiry and the account's roles |
| AuthController.Register | EhrSecure.Api/Controllers/AuthController.cs:74-107 | a blank or whitespace role gives BadRequest before any account is created; a refused creation is BadRequest and changes nothing; a create whose save does not commit is a server fault and changes nothing; a failed role add keeps the new account with no role; success adds the role and one USER_CREATE entry |
| AuthController.AddFirstRole | EhrSecure.Api/Controllers/AuthController.cs:98-106 | the new account gets the requested role under its stored name, then USER_CREATE is logged; an unknown role throws and a failed add gives BadRequest, both unlogged |
| AuthController.MeAfterSignIn | EhrSecure.Api/Controllers/AuthController.cs:109-120 | `Me` on a signed-in caller's valid token shows the account's id, its email, its de-duplicated roles and its patient |
| AuthController.PatientForOtp | EhrSecure.Api/Controllers/AuthController.cs:126-138 | the text is tried as a Guid first: when it parses and names a patient, that patient is chosen even if another patient's MRN is the same text; otherwise it is tried as an MRN; None exactly when neither finds a patient |
| AuthController.RequestOtp | EhrSecure.Api/Controllers/AuthController.cs:122-148 | an unresolved patient gives NotFound and no OTP row; otherwise one OTP row for that patient is appended and its code is answered; no audit entry either way |
| AuthController.MrnNamesThePatient | EhrSecure.Api/Controllers/AuthController.cs:157-168 | with an empty id, an MRN that does not read as a Guid selects that patient |
| AuthController.LoginWithOtp | EhrSecure.Api/Controllers/AuthController.cs:150-195 | the id is resolved from the text only when the request's id is empty; an unknown MRN leaves the empty id; a refused code gives Unauthorized; an accepted code is spent even when no account is linked (Unauthorized); success appends one AUTH_OTP_LOGIN entry |
| AuthController.RedeemAndSignIn | EhrSecure.Api/Controllers/AuthController.cs:170-194 | the code is checked and spent before the linked account is looked up; an accepted code without a linked account still gives Unauthorized |
| AuthController.IssuedCodeSignsInOnce | EhrSecure.Api/Controllers/AuthController.cs:145-170 | a code issued for a patient, used before it expires, is accepted once and refused the second time |
| OtpService.GetInt32 | EhrSecure.Api/Infrastructure/Auth/OtpService.cs:18 | `GetInt32(from, to)` draws from `[from, to)`: the upper bound is exclusive |
| OtpService.GetInt32Covers | EhrSecure.Api/Infrastructure/Auth/OtpService.cs:18 | every value of the range is drawn by some sample |
| OtpService.CodeShape | EhrSecure.Api/Infrastructure/Auth/OtpService.cs:18 | a code is always six decimal digits and never "999999" |
| OtpService.FirstRedeemable | EhrSecure.Api/Infrastructure/Auth/OtpService.cs:38-40 | the position of the first row with the same patient, the identical code, not used and expiring strictly after now |
| OtpService.RedeemAccepts | EhrSecure.Api/Infrastructure/Auth/OtpService.cs:38-42 | a code is accepted exactly when some row is redeemable for it |
| OtpService.RedeemChangesOneRow | EhrSecure.Api/Infrastructure/Auth/OtpService.cs:40-45 | an accepted code flips exactly the first redeemable row to used and leaves every other row alone |
| OtpService.ExpiryIsStrict | EhrSecure.Api/Infrastructure/Auth/OtpService.cs:39 | a row at exactly its expiry instant is refused |
| OtpService.RedeemOnce | EhrSecure.Api/Infrastructure/Auth/OtpService.cs:39-44 | with a single redeemable row, the same code is accepted once and then refused |
| OtpService.FreshCodeRedeemable | EhrSecure.Api/Infrastructure/Auth/OtpService.cs:20-39 | a newly generated row redeems its own code at any instant before it expires |
| OtpService.AppendKeepsEarlierCodes | EhrSecure.Api/Infrastructure/Auth/OtpService.cs:30-31 | generating a code never withdraws an earlier redeemable code; the same earlier row is still the one redeemed |
| OtpService.GenerateOtp | EhrSecure.Api/Infrastructure/Auth/OtpService.cs:16-34 | exactly one unused row for the patient is appended, expiring at now + 10 minutes, and its code is returned |
| OtpService.ValidateOtp | EhrSecure.Api/Infrastructure/Auth/OtpService.cs:36-48 | true exactly when a row is redeemable, and then the table is that row flipped to used; false leaves the table unchanged |
| NotificationService.RecordAddedFits | EhrSecure.Api/Infrastructure/Notifications/NotificationService.cs:15-28 | a record notification fits its columns exactly when the doctor's email is at most 256 characters |
| NotificationService.ConsentChangedFits | EhrSecure.Api/Infrastructure/Notifications/NotificationService.cs:34-45 | a consent notification always fits, and its message carries "Allowed" or "Denied" for the doctors' flag at its place |
| NotificationService.AllowedOrDeniedInjective | EhrSecure.Api/Infrastructure/Notifications/NotificationService.cs:41 | the words "Allowed" and "Denied" tell the flags apart |
| NotificationService.ConsentMessageInjective | EhrSecure.Api/Infrastructure/Notifications/NotificationService.cs:41 | the consent message determines both flags |
| NotificationService.NewerOrSameOrders | EhrSecure.Api/Infrastructure/Notifications/NotificationService.cs:56-74 | newest-first is a total preorder |
| NotificationService.GetUnread | EhrSecure.Api/Infrastructure/Notifications/NotificationService.cs:51-67 | exactly the patient's unread notifications, each as often as stored, newest first |
| NotificationService.SortedOfUnread | EhrSecure.Api/Infrastructure/Notifications/NotificationService.cs:55-56 | the sorted filter holds exactly the patient's unread rows, row by row and as a multiset |
| NotificationService.GetAll | EhrSecure.Api/Infrastructure/Notifications/NotificationService.cs:69-86 | exactly `min(take, the patient's count)` rows (none for `take <= 0`), all the patient's own, none more often than stored, newest first; no row of the patient left out is newer than a row kept; all of them when `take` is large enough |
| NotificationService.TakeOfMine | EhrSecure.Api/Infrastructure/Notifications/NotificationService.cs:73-75 | every row of a page of the patient's sorted rows is one of the patient's stored rows |
| NotificationService.PageOfMine | EhrSecure.Api/Infrastructure/Notifications/NotificationService.cs:73-75 | a page holds `take` of the patient's rows, or all of them when there are fewer, and takes no row more often than stored |
| NotificationService.PageIsNewest | EhrSecure.Api/Infrastructure/Notifications/NotificationService.cs:74-75 | none of the patient's notifications left out of the page is newer than a row kept |
| NotificationService.FindOwned | EhrSecure.Api/Infrastructure/Notifications/NotificationService.cs:90-91 | the position of the first row with both that id and that patient, or the number of rows |
| NotificationService.MarkAllRead | EhrSecure.Api/Infrastructure/Notifications/NotificationService.cs:102-104 | the direct update keeps every row in place: afterwards every row of the patient is read, each of the patient's rows changes only its read flag, and every other patient's row is as it was |
| NotificationService.MarkReadOnlyOwnRow | EhrSecure.Api/Infrastructure/Notifications/NotificationService.cs:88-98 | only a row whose id and patient both match can change, and only its read flag; a foreign or unknown id changes nothing |
| NotificationService.MarkReadIdempotent | EhrSecure.Api/Infrastructure/Notifications/NotificationService.cs:95 | marking one notification read twice is the same as once |
| NotificationService.MarkAllReadLeavesNoUnread | EhrSecure.Api/Infrastructure/Notifications/NotificationService.cs:100-105 | afterwards the patient has no unread notification |
| NotificationService.MarkAllReadOnlyOwnRows | EhrSecure.Api/Infrastructure/Notifications/NotificationService.cs:103-104 | other patients' rows are unchanged, and the patient's rows change only in the read flag |
| NotificationService.MarkAllReadIdempotent | EhrSecure.Api/Infrastructure/Notifications/NotificationService.cs:103-104 | marking all read twice is the same as once |
| NotificationService.MarkAllReadKeepsConstraints | EhrSecure.Api/Infrastructure/Notifications/NotificationService.cs:102-104 | the direct update keeps every table constraint |
| NotificationService.NotifyRecordAdded | EhrSecure.Api/Infrastructure/Notifications/NotificationService.cs:15-32 | one unread RECORD_ADDED notification is appended for the patient, naming the record and the doctor's email; an email over 256 characters makes the save fail with nothing committed |
| NotificationService.NotifyConsentChanged | EhrSecure.Api/Infrastructure/Notifications/NotificationService.cs:34-49 | one unread CONSENT_CHANGED notification carrying both flags is appended; it always commits |
| NotificationService.MarkAsRead | EhrSecure.Api/Infrastructure/Notifications/NotificationService.cs:88-98 | through the change tracker and the save, the table becomes `MarkRead` of the old one |
| NotificationService.MarkAllAsRead | EhrSecure.Api/Infrastructure/Notifications/NotificationService.cs:100-105 | the direct update changes the committed table and leaves the change tracker untouched |
| MedicalRecordsController.PatientRecords | EhrSecure.Api/Controllers/MedicalRecordsController.cs:95-98 | exactly the patient's records, each as often as stored, newest first |
| MedicalRecordsController.DecryptRecord | EhrSecure.Api/Controllers/MedicalRecordsController.cs:100-109 | the projection succeeds exactly when all three fields decrypt, and then keeps the id, the patient, the author and the time |
| MedicalRecordsController.DecryptAll | EhrSecure.Api/Controllers/MedicalRecordsController.cs:100-109 | every record decrypted, in order, or a failure exactly when some record fails |
| MedicalRecordsController.DecryptedTail | EhrSecure.Api/Controllers/MedicalRecordsController.cs:100-109 | one step of the projection: the first record's view in front of the rest's outcome |
| MedicalRecordsController.NewRecordReadsBack | EhrSecure.Api/Controllers/MedicalRecordsController.cs:56-65 | a stored record keeps each clinical field only as cipher output, and decrypting it gives back the submitted text, the caller as author and the time |
| MedicalRecordsController.Add | EhrSecure.Api/Controllers/MedicalRecordsController.cs:41-74 | no user id gives Forbid and an unknown patient NotFound, both with nothing written; otherwise the record is saved, then one RECORD_ADD entry, then one notification to the patient |
| MedicalRecordsController.LogAndNotify | EhrSecure.Api/Controllers/MedicalRecordsController.cs:70-73 | after the record is saved: the RECORD_ADD entry, then the notification naming the caller's email or "Unknown" |
| MedicalRecordsController.GateIsConsentDecision | EhrSecure.Api/Controllers/MedicalRecordsController.cs:85-93 | skipping the consent call for an Admin changes no outcome: the gate passes exactly when the consent decision does |
| MedicalRecordsController.GetForPatient | EhrSecure.Api/Controllers/MedicalRecordsController.cs:76-114 | Forbid without a user id; a non-admin denied by consent causes exactly one RECORD_READ_DENY entry and a Forbid; otherwise exactly the patient's records, newest first and decrypted, then one RECORD_READ entry |
| MedicalRecordsController.Latest | EhrSecure.Api/Controllers/MedicalRecordsController.cs:141-145 | the latest creation time of the given records: no record is later, and some record has it when there are any |
| MedicalRecordsController.Listed | EhrSecure.Api/Controllers/MedicalRecordsController.cs:132-133 | exactly the patients whose id is in the set |
| MedicalRecordsController.SummaryRows | EhrSecure.Api/Controllers/MedicalRecordsController.cs:134-148 | one summary per listed patient, in order |
| MedicalRecordsController.SummaryRowsMembers | EhrSecure.Api/Controllers/MedicalRecordsController.cs:134-148 | the summaries are exactly those of the listed patients |
| MedicalRecordsController.SortKeepsMembers | EhrSecure.Api/Controllers/MedicalRecordsController.cs:149 | ordering keeps exactly the same members |
| MedicalRecordsController.MyPatients | EhrSecure.Api/Controllers/MedicalRecordsController.cs:126-150 | one summary per listed patient, and exactly the summaries of the patients the caller wrote a record for, latest visit first |
| MedicalRecordsController.GetMyPatients | EhrSecure.Api/Controllers/MedicalRecordsController.cs:116-153 | Forbid exactly when the caller has no user id; otherwise the caller's patients |
| MedicalRecordsController.SummaryCountsOwnRecords | EhrSecure.Api/Controllers/MedicalRecordsController.cs:141-147 | a listed patient's `RecordCount` counts only the caller's records about the patient and is at least one; its `LastVisit` is the latest of them |
| ConsentsController.GetMyConsent | EhrSecure.Api/Controllers/ConsentsController.cs:28-46 | no patient id gives Forbid and no consent row NotFound, both unlogged; otherwise the caller's own flags, after one CONSENT_READ entry |
| ConsentsController.Updated | EhrSecure.Api/Controllers/ConsentsController.cs:63-65 | the saved row keeps its id and patient and takes exactly the requested flags and the current time |
| ConsentsController.UpdateMyConsent | EhrSecure.Api/Controllers/ConsentsController.cs:48-72 | no patient id gives Forbid and no row NotFound, both unlogged and unchanged; otherwise only the caller's own row is updated, then one CONSENT_UPDATE entry, then one notification carrying the new flags |
| ConsentsController.SaveConsentUpdate | EhrSecure.Api/Controllers/ConsentsController.cs:63-71 | the row's flags are saved, the change is logged and the patient is notified, in that order |
| ConsentsController.UpdateIsWhatTheGateReads | EhrSecure.Api/Controllers/ConsentsController.cs:63-67 | after an update, the consent decision for the patient reads the updated row |
| PatientPortalController.MyRecords | EhrSecure.Api/Controllers/PatientPortalController.cs:32-62 | Forbid without a patient id; otherwise exactly the caller's own records, newest first and decrypted, with no consent check, then one PORTAL_RECORD_READ entry |
| PatientPortalController.GetNotifications | EhrSecure.Api/Controllers/PatientPortalController.cs:64-75 | Forbid exactly when there is no patient id; otherwise the caller's latest 50 notifications, all the caller's own |
| PatientPortalController.GetUnreadNotifications | EhrSecure.Api/Controllers/PatientPortalController.cs:77-88 | Forbid exactly when there is no patient id; otherwise the caller's own unread notifications |
| PatientPortalController.MarkAsRead | EhrSecure.Api/Controllers/PatientPortalController.cs:90-101 | the mark is made with the caller's own patient id, so another patient's notification cannot be touched |
| PatientPortalController.MarkAllAsRead | EhrSecure.Api/Controllers/PatientPortalController.cs:103-114 | only the caller's own notifications are marked read |
| PatientPortalController.FindOwnRecord | EhrSecure.Api/Controllers/PatientPortalController.cs:127-128 | a record with that id belonging to that patient, or None exactly when there is none |
| PatientPortalController.PrescriptionOf | EhrSecure.Api/Controllers/PatientPortalController.cs:135-139 | the page shows the record's three decrypted fields and exists exactly when they decrypt |
| PatientPortalController.DownloadPrescription | EhrSecure.Api/Controllers/PatientPortalController.cs:116-144 | NotFound with no entry when the record is not the caller's or the patient is missing; otherwise the page, after one PRESCRIPTION_DOWNLOAD entry |
| PatientPortalController.DownloadAllRecords | EhrSecure.Api/Controllers/PatientPortalController.cs:146-172 | NotFound with no entry when the patient is missing; otherwise the patient and all of the patient's records, newest first, after one RECORDS_DOWNLOAD_ALL entry |
| PatientPortalController.PortalShowsOnlyOwnRecords | EhrSecure.Api/Controllers/PatientPortalController.cs:43-57 | every record a portal read returns belongs to the caller's own patient id |
| ReceptionistController.DoctorViews | EhrSecure.Api/Controllers/ReceptionistController.cs:48 | one id-and-email row per account, in order |
| ReceptionistController.GetDoctors | EhrSecure.Api/Controllers/ReceptionistController.cs:35-52 | nobody when no role is named "Doctor"; otherwise a row for every account holding that role and only for such accounts, one row per such account |
| ReceptionistController.DoctorsListed | EhrSecure.Api/Controllers/ReceptionistController.cs:41-49 | the filtered accounts give a row for each doctor account, and each row is a doctor account's |
| ReceptionistController.DoctorEmail | EhrSecure.Api/Controllers/ReceptionistController.cs:62-67 | the stored email is null when no id is given or the id is unknown, and otherwise the email of the account with that id |
| ReceptionistController.RegisterPatient | EhrSecure.Api/Controllers/ReceptionistController.cs:54-106 | an existing MRN gives BadRequest with nothing created; otherwise one patient, keeping the requested doctor id as given, and one consent row with both flags true, then one PATIENT_REGISTER entry for the new id |
| ReceptionistController.SaveRegistration | EhrSecure.Api/Controllers/ReceptionistController.cs:83-105 | the patient and its open consent are saved together, then the registration is logged |
| ReceptionistController.RegisteredPatientIsOpenToCare | EhrSecure.Api/Controllers/ReceptionistController.cs:85-93 | a patient registered at the front desk has a consent row, and any Admin, Doctor or Nurse passes the consent decision for it |
| ReceptionistController.GetPatients | EhrSecure.Api/Controllers/ReceptionistController.cs:108-129 | every patient, as a permutation of the table, newest registration first |
| ReceptionistController.GetPatientsByDoctor | EhrSecure.Api/Controllers/ReceptionistController.cs:131-151 | exactly the patients whose assigned doctor id equals the argument, newest first |
| ReceptionistController.Assigned | EhrSecure.Api/Controllers/ReceptionistController.cs:162-163 | the assignment sets the doctor id and email, and nothing else of the row |
| ReceptionistController.AssignDoctor | EhrSecure.Api/Controllers/ReceptionistController.cs:153-169 | a missing patient gives NotFound and a missing account BadRequest, both unchanged; otherwise both doctor fields are set and one PATIENT_ASSIGN_DOCTOR entry is appended |
| ReceptionistController.SaveAssignment | EhrSecure.Api/Controllers/ReceptionistController.cs:162-166 | the tracked row is changed and saved, then the assignment is logged |
| ReceptionistController.AssignedPatientListedUnderDoctor | EhrSecure.Api/Controllers/ReceptionistController.cs:131-162 | after an assignment, the patient is listed under the new doctor and under no other |
| PatientsController.Create | EhrSecure.Api/Controllers/PatientsController.cs:23-51 | one patient and one consent row with both flags false; there is no MRN pre-check, so a duplicate fails at the unique index; then one PATIENT_CREATE entry |
| PatientsController.CreatedPatientIsClosedToCare | EhrSecure.Api/Controllers/PatientsController.cs:37-45 | a patient an administrator creates passes the consent decision for Admins only |
| PatientsController.GetById | EhrSecure.Api/Controllers/PatientsController.cs:53-65 | an unknown id gives NotFound with no entry; otherwise the row, after one PATIENT_READ entry |
| PatientsController.CreatedPatientFound | EhrSecure.Api/Controllers/PatientsController.cs:57 | a created patient is the one `GetById` finds under its id |

## Left out

- **Reads of state that are not pinned down.**
  - `Store.AppDb.EnforceAppendOnly` reads the tracker, and `AuditService.LogAsync` reads the
    request. Both are stated as they are; the request is an explicit parameter.
- **Identity.** ASP.NET Identity (`UserManager`, `RoleManager`, `SignInManager`) is reduced to
  the accounts, the role names and a map from account to role names.
  - Password hashing and the lockout policy (`Program.cs`:39-40) are not modelled:
    `passwordOk` is the outcome of `CheckPasswordSignInAsync`.
  - The syntax check on email addresses is the input `emailWellFormed`. Since `Register` uses
    the email as the user name, the input also stands for Identity's user-name character
    check (letters, digits and `-._@+`), which refuses an address such as "o'brien@example.org".
  - Whether an identity store write commits is a boolean input. A create whose save does not
    commit is a fault, since `CreateAsync` does not catch the store's exception.
  - For `AddToRole` and `RemoveFromRoles` a write that does not commit is `Failed`. The store's
    update reports `Failed` only for a concurrency conflict; any other save exception escapes
    as a server error, which the model does not distinguish.
- **Token validation, signing and encodings.** `JwtSecurityTokenHandler`, HMAC-SHA256
  signing, AES-GCM, Base64, UTF-8 and `RandomNumberGenerator` are abstract functions, with
  the laws stated in `Lawful` predicates.
  - Inbound claim mapping by the JWT bearer middleware (`sub` to NameIdentifier) is not
    modelled: the principal holds the token's claims as written.
  - The principal built by `ValidateToken` also carries the registered `iss`, `aud`, `nbf`
    and `exp` claims. The model omits them; no action reads a claim of those types.
- **Case folding** covers ASCII letters only. `OrdinalIgnoreCase` beyond ASCII is not modelled.
- **Text.** Strings are sequences of Unicode scalar values. .NET strings are UTF-16 and may
  hold a lone surrogate, which UTF-8 encoding replaces with U+FFFD, so such a string does not
  survive an encrypt-decrypt round trip. Such strings are not modelled.
- **Collation.** The database's collation for the email order of `Users` is a parameter `le`,
  required to be a total preorder. Ties in every `OrderBy` are broken by the model's stable
  insertion sort; the properties proved are "sorted" and "a permutation", which hold under
  any tie order.
- **Guid text.** Only the hyphenated 36-character form is parsed. `Guid.TryParse` also accepts
  braced, parenthesised and 32-digit forms; they are not modelled.
- **Claim name.** `JwtClaims.PatientId` is taken to be "patient_id". The constant's file is
  not part of this model.
- **Projections.** Answers that are anonymous objects keep the rows they project, not only the
  projected fields. `NotificationDto` is the notification row.
- **Time.** Each request reads `DateTime.UtcNow` at one instant. Two reads in one action, as in
  `OtpService.cs`:25-27, give the same value here.
- **Concurrency.** The OTP check-then-mark is not atomic; it is modelled sequentially only.
  Concurrent saves, async scheduling and retries are not modelled.
- **Failure kinds.** A failed commit (a unique index, a length, or a foreign key) is one error,
  `ConstraintViolation`. Which index or column failed is not distinguished.
- **HTML pages.** `GeneratePrescriptionHtml` and `GenerateAllRecordsHtml` are templates. They
  are left out: the downloads return the values the page is built from.
- **Startup code.** The role seeding (`RoleAndAdminSeeder.cs`), the middleware wiring in
  `Program.cs` and the browser client `app.js` are not modelled.
- **Migrations** are schema DDL; the constraints they create are modelled through
  `OnModelCreating`.
- **Unmodelled columns.** The audit-row key, and the order of audit rows beyond append order,
  are not modelled. The ledger is a sequence in insertion order.
- **Behaviour modelled as written.**
  - `AssignDoctor` accepts any account id as the doctor; it does not check the Doctor role.
  - `Register` keeps the newly created account, with no role, when adding the role fails.
  - A one-time code is spent even when no account is linked to the patient.
  - `RequestOtp` returns the code in its response.
  - `PatientsController.Create` fails with a server error on a duplicate MRN, rather than
    answering BadRequest.
- **Members whose contracts are weaker here.** Each line below starts with the member's name.
- SaveAddedPatientWithConsent: the unique MRN index is checked with ordinal string equality.
  SQL Server compares with the column's collation: `=` ignores trailing spaces, and the
  default collation also ignores case. So "P001 " or "p001" collide with "P001" in the
  database but not in the model. The collation is not part of this model.
- FindPatientByMrn: `p.Mrn == mrn` runs as SQL, so the same collation applies. The model
  compares ordinally. The same holds for `Store.MrnUnused`, which the front desk's MRN
  pre-check and the unique index rely on.
- FirstRedeemable: the SQL `Code = @code` ignores trailing spaces, so a code submitted as
  "123456 " is accepted by the database and refused by the model. Codes are compared
  ordinally here.
- FirstRedeemable: `FirstOrDefaultAsync` has no `OrderBy`. When two rows are redeemable for
  the same code, the database may return either; the model takes the first in table order.
  `OtpService.ValidateOtp` inherits this choice.
- FindByPatientId: `FirstOrDefaultAsync(u => u.PatientId == patientId)` has no `OrderBy`, and
  nothing makes `PatientId` unique among accounts. When two accounts are linked to one
  patient, the database may return either; the model takes the first in table order.
  `AuthController.LoginWithOtp` and `AuthController.RedeemAndSignIn` inherit this choice, so
  the roles of the token they issue are those of the account the model picks.
- GetDoctors: the lookup `r.Name == AppRoles.Doctor` runs as SQL under the collation. The
  model compares the role name ordinally.
- CreateAccessToken: the `JwtSecurityToken` constructor throws `ArgumentException` when
  `expires` is not after `notBefore`, that is when `AccessTokenMinutes <= 0`. The model does
  not model that exception: it issues a token for every configuration. Its lemmas about
  lifetime assume `AccessTokenMinutes >= 0`.
