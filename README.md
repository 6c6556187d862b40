# Pet clinic accounts: registration, login, profile edit and deletion

A Dafny model of the account lifecycle of the pet clinic backend. The
backend keeps a table of accounts keyed by email. Each account holds an id,
an email, a stored password hash, a display name, a role and a list of pets.
Four kinds of request change or read the table:

- **Registration.** There are two versions of it.
  - `AuthServiceImpl.registerUser` (module `Auth`) refuses a password of 3
    characters or fewer, then refuses an email that is already registered. It
    then stores the encoder's output instead of the plaintext and saves the
    new account. A failing greeting mail is swallowed on the way.
  - `AppUserServiceImpl.registerUser` (module `Services`) makes the same two
    checks in the same order, but throws RuntimeExceptions with fixed
    messages. It sends the greeting mail before the save without catching
    anything, so a mail failure leaves the table unchanged.
- **Login.** Both services have one. Login hands out a token only when the
  plaintext matches the stored hash. In `AppUserServiceImpl` an unknown
  email and a wrong password end in the same failure. `AuthServiceImpl` as
  written dereferences null for an unknown email (see Findings); the model
  gives it the corrected NotFound answer.
- **Profile edit** (module `UserUpdate`). This covers the request record,
  its field constraints, and the edit itself:
  - the caller's account keeps its id, role and pets;
  - the email and display name are replaced;
  - the password is replaced only when a new one is given, and then the
    caller is logged out.
- **Deletion** (module `Deletion`). Deletion is refused while the account
  still has pets. Otherwise exactly that account is removed.

The repository is the class `Repository.AppUserRepository`, which the
service classes share and update in place. Its value is `Store`, a map from
email to account plus the next free id. `Consistent` is its invariant:
- every account sits under its own email;
- ids are unique and already handed out.

Each state-changing service method is proved against a pure function of
the old table (`RegisterOutcome`, `ChangeOutcome`, `DeleteOutcome`). The
properties are proved about those functions. Module `Lifecycle` folds any
sequence of requests over the table. It proves that the invariant, and the
fact that only encoder outputs are ever stored, hold throughout. It also
proves how the operations answer one another.

Three collaborators appear as parameters:
- The password encoder is a pair of functions, `encode` and `matches`.
  Where a proof needs "a plaintext matches its own encoding", it is the
  hypothesis `Sound(enc)`.
- The token generator is a function from an account to a string.
- The well-formed-email check of the edit request is an opaque predicate
  `isEmail`.

## Model

| member | source | states |
|---|---|---|
| `Auth.RegisterOutcome` | src/main/java/com/greenfox/dramacsoport/petclinicbackend/services/appUser/auth/AuthServiceImpl.java:64-82 | A password of 3 characters or fewer fails with ShortPassword, and this check comes first, even when the email is also taken. A registered email fails with UserAlreadyExists. Both failures leave the table unchanged. Success happens exactly when neither holds. On success exactly one account is added under the requested email: its password is `encode(plaintext)` (never the plaintext when the encoder is one-way), its role is USER and it has no pets. Every other entry stays the same, and the table's invariant is kept. |
| `Auth.AuthServiceImpl.RegisterUser` | src/main/java/com/greenfox/dramacsoport/petclinicbackend/services/appUser/auth/AuthServiceImpl.java:64-82 | The method's result and the repository's new state are those of `RegisterOutcome`, whatever the mail outcome `mailFails` is, because a mail failure is swallowed. The repository invariant is kept. |
| `Auth.AuthServiceImpl.IsUserRegistered` | src/main/java/com/greenfox/dramacsoport/petclinicbackend/services/appUser/auth/AuthServiceImpl.java:104-106 | True exactly when the email is in the table. |
| `Auth.AuthServiceImpl.AuthenticateUser` | src/main/java/com/greenfox/dramacsoport/petclinicbackend/services/appUser/auth/AuthServiceImpl.java:93-98 | True exactly when the email is registered and `matches(password, stored hash)` holds. The null case is handled; see Findings. |
| `Auth.LoginOutcome` | src/main/java/com/greenfox/dramacsoport/petclinicbackend/services/appUser/auth/AuthServiceImpl.java:84-98 | Login succeeds exactly when the email is registered and the password matches its stored hash. The token is the generator's output for that account. Every failure is NotFound. For a registered email it agrees with the code as written. |
| `Auth.AuthServiceImpl.Login` | src/main/java/com/greenfox/dramacsoport/petclinicbackend/services/appUser/auth/AuthServiceImpl.java:84-91 | The method answers as `LoginOutcome` on the current table. |
| `Auth.LoginOutcomeAsWritten` | src/main/java/com/greenfox/dramacsoport/petclinicbackend/services/appUser/auth/AuthServiceImpl.java:84-98 | Login as written. An unregistered email, and only that, ends in a null dereference. A registered email succeeds exactly when the password matches its stored hash, with the token of that account, and fails with NotFound otherwise. |
| `Auth.IsPasswordLongerThanThreeChar` | src/main/java/com/greenfox/dramacsoport/petclinicbackend/services/appUser/auth/AuthServiceImpl.java:100-102 | A password passes exactly when it has at least four characters. |
| `Models.ConvertToEntity` | src/main/java/com/greenfox/dramacsoport/petclinicbackend/services/appUser/auth/AuthServiceImpl.java:47-49 | The new entity is unsaved (no id yet), with role USER and no pets. The request's email, password and display name can be read back off it unchanged. |
| `Auth.UnknownEmailDereferencesNull` | src/main/java/com/greenfox/dramacsoport/petclinicbackend/services/appUser/auth/AuthServiceImpl.java:93-97 | As written, a login with an unregistered email dereferences null. The corrected login answers NotFound. |
| `Auth.RegisterThenLogin` | src/main/java/com/greenfox/dramacsoport/petclinicbackend/services/appUser/auth/AuthServiceImpl.java:73-98 | Given a sound encoder, a successful registration followed by a login with the same email and password yields the token of the saved account. |
| `Auth.FailedRegisterKeepsLogins` | src/main/java/com/greenfox/dramacsoport/petclinicbackend/services/appUser/auth/AuthServiceImpl.java:66-71 | A refused registration changes the answer of no later login. |
| `Services.RegisterOutcome` | src/main/java/com/greenfox/dramacsoport/petclinicbackend/services/AppUserServiceImpl.java:72-88 | A short password fails first with "Password must be longer than 3 characters.". A present email then fails with "User already exists." (cause NameAlreadyBound). A failing mail then ends in MailException. Success happens exactly when none of the three holds. Every failure leaves the table unchanged. On success one account is added under the email with password `encode(plaintext)`, and all other entries stay the same. The invariant is kept. |
| `Services.IsPasswordLongerThanThreeChar` | src/main/java/com/greenfox/dramacsoport/petclinicbackend/services/AppUserServiceImpl.java:103-105 | A password passes exactly when it has at least four characters. |
| `Services.AppUserServiceImpl.RegisterUser` | src/main/java/com/greenfox/dramacsoport/petclinicbackend/services/AppUserServiceImpl.java:72-88 | The method's result and new repository state are those of `RegisterOutcome` for the given mail outcome. The invariant is kept. |
| `Services.AppUserServiceImpl.SaveUser` | src/main/java/com/greenfox/dramacsoport/petclinicbackend/services/AppUserServiceImpl.java:53-56 | A new entity, one whose id is still unset, is stored under its email with only the repository-assigned id filled in. The stored entity is returned, and nothing else in the table changes. |
| `Services.AppUserServiceImpl.IsUserRegistered` | src/main/java/com/greenfox/dramacsoport/petclinicbackend/services/AppUserServiceImpl.java:107-109 | A present lookup happens exactly when the email is in the table. |
| `Services.AppUserServiceImpl.Authenticate` | src/main/java/com/greenfox/dramacsoport/petclinicbackend/services/AppUserServiceImpl.java:94-96 | The authentication manager accepts exactly when an account is loaded for the email and the password matches its hash. |
| `Services.LoginOutcome` | src/main/java/com/greenfox/dramacsoport/petclinicbackend/services/AppUserServiceImpl.java:91-101 | Every failure, whether from an unknown email or a wrong password, is UsernameNotFoundException("Authentication failed!"). Success happens exactly when the password matches the hash of the account under that email. The token is generated for the account loaded by that same email. |
| `Services.AppUserServiceImpl.Login` | src/main/java/com/greenfox/dramacsoport/petclinicbackend/services/AppUserServiceImpl.java:91-101 | The method answers as `LoginOutcome` on the current table. |
| `Services.RegisterThenLogin` | src/main/java/com/greenfox/dramacsoport/petclinicbackend/services/AppUserServiceImpl.java:82-97 | Given a sound encoder and a delivered mail, logging in after a successful registration yields the token of the saved account. |
| `UserUpdate.NoViolationsIffValid` | src/main/java/com/greenfox/dramacsoport/petclinicbackend/dtos/update/EditUserRequestDTO.java:6-25 | The annotations, each evaluated with Bean Validation's null rules, report no violation exactly for the valid requests. A valid request has a present, non-blank, well-formed email. It has a present, non-empty original password and a present password of at least 3 characters. It has a present, non-blank username of at most 20 characters from `[a-zA-Z0-9_-]`. |
| `UserUpdate.ValidUsernameLength` | src/main/java/com/greenfox/dramacsoport/petclinicbackend/dtos/update/EditUserRequestDTO.java:21-25 | A valid username has between 1 and 20 characters. |
| `UserUpdate.ThreeCharPasswordAccepted` | src/main/java/com/greenfox/dramacsoport/petclinicbackend/dtos/update/EditUserRequestDTO.java:16-19 | A 3-character password passes the edit request's size rule (at least 3). Both registrations refuse it with their short-password failure and leave the table unchanged, whatever the table, email and display name. |
| `UserUpdate.ChangeOutcome` | src/test/java/com/greenfox/dramacsoport/petclinicbackend/integration/ChangeUserTest.java:78-117 | The checks run in this order: unknown caller fails with UserNotFound, a non-matching original password with WrongOriginalPassword, and a new email held by another account with EmailTaken. Each failure changes nothing and logs nobody out. On success the caller's entry moves from the old email to the new one. It keeps its id, role and pets, and takes the new email and display name. The hash becomes `encode(new password)` when one is supplied and is kept otherwise. Every other entry is unchanged. The caller is logged out exactly when a password was supplied. The invariant is kept. |
| `UserUpdate.UserProfileService.ChangeUserData` | src/test/java/com/greenfox/dramacsoport/petclinicbackend/integration/ChangeUserTest.java:93-116 | The method's result and new repository state are those of `ChangeOutcome`. The security context is cleared exactly when `ChangeOutcome` logs the caller out, and is untouched otherwise. |
| `Security.SecurityContext.LogoutUser` | src/test/java/com/greenfox/dramacsoport/petclinicbackend/services/applicationServices/JwtServiceTest.java:92-103 | After logout the context holds no authentication. |
| `Deletion.DeleteOutcome` | src/test/java/com/greenfox/dramacsoport/petclinicbackend/services/appUser/AppUserServiceTest.java:39-68 | An account with pets fails with DeletionException("Unable to delete your profile. Please transfer or delete your pets before proceeding.") and nothing changes. Deletion succeeds exactly when the caller's account exists and has no pets. On success the answer is "Your profile has been successfully deleted.", exactly the caller's entry is removed, and the others are unchanged. The invariant is kept. |
| `Deletion.AppUserServiceImpl.DeleteUser` | src/main/java/com/greenfox/dramacsoport/petclinicbackend/services/appUser/AppUserService.java:7 | The method's result and new repository state are those of `DeleteOutcome`. |
| `Repository.Insert` | src/main/java/com/greenfox/dramacsoport/petclinicbackend/services/appUser/auth/AuthServiceImpl.java:81 | Saving a new entity, one whose id is still unset, adds exactly its email, with the next id. The other entries are unchanged and the invariant is kept. |
| `Repository.Replace` | src/test/java/com/greenfox/dramacsoport/petclinicbackend/integration/ChangeUserTest.java:104-110 | Saving an edited account removes the old email key and stores the account under its new email. The other entries are unchanged and the invariant is kept. |
| `Repository.Remove` | src/test/java/com/greenfox/dramacsoport/petclinicbackend/services/appUser/AppUserServiceTest.java:66-67 | Deleting removes exactly the given key, leaves the other entries unchanged, and keeps the invariant. |
| `Lifecycle.StepPreserves` | src/main/java/com/greenfox/dramacsoport/petclinicbackend/services/appUser/auth/AuthServiceImpl.java:66-81 | A whole-model invariant: registration here, the edit of src/test/java/com/greenfox/dramacsoport/petclinicbackend/integration/ChangeUserTest.java:104-110 and the deletion of src/test/java/com/greenfox/dramacsoport/petclinicbackend/services/appUser/AppUserServiceTest.java:66-67 alike. Each request keeps the table consistent and keeps only encoder outputs stored. The requests are a registration of either kind, an edit or a deletion. |
| `Lifecycle.RunPreserves` | src/main/java/com/greenfox/dramacsoport/petclinicbackend/services/appUser/auth/AuthServiceImpl.java:66-81 | The same holds after any sequence of such requests. |
| `Lifecycle.ReachableStoresConsistent` | src/main/java/com/greenfox/dramacsoport/petclinicbackend/services/appUser/auth/AuthServiceImpl.java:69-74 | From an empty table, no sequence of requests produces two accounts with one email or one id, or a stored password that is not an encoder output. |
| `Lifecycle.RegistrationVariantsAgree` | src/main/java/com/greenfox/dramacsoport/petclinicbackend/services/AppUserServiceImpl.java:72-88 | With the mail delivered, both registrations leave the same table and save the same account. They fail in corresponding ways. |
| `Lifecycle.LoginVariantsAgree` | src/main/java/com/greenfox/dramacsoport/petclinicbackend/services/AppUserServiceImpl.java:91-101 | Both logins accept the same credentials and issue the same token. |
| `Lifecycle.RegisterThenDeleteRestores` | src/test/java/com/greenfox/dramacsoport/petclinicbackend/services/appUser/AppUserServiceTest.java:55-67 | A freshly registered account has no pets. Deleting it succeeds and restores the previous accounts. |
| `Lifecycle.DeleteFreesEmail` | src/test/java/com/greenfox/dramacsoport/petclinicbackend/services/appUser/AppUserServiceTest.java:55-67 | After a successful deletion, logging in with that email fails. Registering it again with a long enough password succeeds. |
| `Lifecycle.BlockedDeleteKeepsLogins` | src/test/java/com/greenfox/dramacsoport/petclinicbackend/services/appUser/AppUserServiceTest.java:40-51 | A deletion refused because of pets fails with the pets message and changes no login's answer. |
| `Lifecycle.EditThenLoginWithNewPassword` | src/test/java/com/greenfox/dramacsoport/petclinicbackend/integration/ChangeUserTest.java:104-112 | Given a sound encoder, after an edit that supplies a password, the new email with the new password logs in to the edited account. |
| `Lifecycle.EditWithoutPasswordKeepsLogin` | src/test/java/com/greenfox/dramacsoport/petclinicbackend/integration/ChangeUserTest.java:145-153 | After an edit without a password, the caller is not logged out (an assumption, see Left out), and the new email with the original password still logs in. |
| `Lifecycle.EditRetiresOldEmail` | src/test/java/com/greenfox/dramacsoport/petclinicbackend/integration/ChangeUserTest.java:103-106 | After an edit that changes the email, the old email is gone: a login with it fails and it can be registered again. |

## Left out

- Mail sending is network I/O. Its outcome is the parameter `mailFails`, and the message it builds is not modelled.
- JWT signing, parsing, expiry and tamper detection are not modelled. The token generator is an opaque function of the account, and the claim round-trips of the token service are not stated.
- The password encoder's salting is not modelled. Encoding is a deterministic function, and the proofs rely only on two hypotheses about it: `Sound(enc)`, a plaintext matches its own encoding, and, for the clause of `Auth.RegisterOutcome` that the plaintext is never stored, `NeverIdentity(enc)`, no plaintext is its own encoding.
- The authentication manager is reduced to "load the account by email, match the password". Account status flags such as enabled or locked are not modelled.
- The thread-local security context is a `SecurityContext` object holding the principal's email.
- Entity mapping copies email, password and display name. The entity class is not part of this model, so the new account's role (USER) and empty pet list are this model's assumption about the entity's defaults.
- Entities are values. Aliasing of the mutable entity object (`setPassword` on a shared instance) is not modelled.
- The field constraints of the registration request are not part of this model; only the edit request's constraints are.
- String lengths count characters, not UTF-16 code units. Ids are unbounded naturals rather than 64-bit values.
- Concurrency and transactions are not modelled. Each request runs alone on the table.
- Deletion.AppUserServiceImpl.DeleteUser: the id argument is accepted but not compared with the account's id. The code that would compare them is not part of this model, and the tests call deletion with the email only.
- Deletion.AppUserServiceImpl.DeleteUser: the behaviour for an unknown caller email is not shown. The model answers UserNotFound and changes nothing.
- UserUpdate.ChangeOutcome: the service code of the edit is not part of this model. The failure order (unknown caller, wrong original password, email taken) is this model's assumption. The effects on the table follow the integration test. That a password-less edit leaves the caller logged in is also this model's assumption; see the next line.
- Lifecycle.EditWithoutPasswordKeepsLogin: its "not logged out" half is this model's assumption. The test's assertion of it is commented out (src/test/java/com/greenfox/dramacsoport/petclinicbackend/integration/ChangeUserTest.java:141-142), so the program may log the caller out after every edit.
- UserUpdate.ChangeOutcome: the edit request declares the password `@NotNull`, yet the test edits with a null password and expects success. The test comes from a different revision of the request, whose display-name field is `displayName` rather than `username`. The edit therefore accepts a missing password, while `IsValid` follows the request as written.
- Services.AppUserServiceImpl.SaveUser: modelled only for a new entity, one with no id and an unregistered email, which is how registration calls it. Saving an entity that carries the id of a stored row merges into that row, and that is not modelled. Re-saving a stored account is `AppUserRepository.SaveExisting`.
- The controllers and the mapping of failures to HTTP statuses are out of scope, and so is the about page, which returns a constant.

## Findings

| source | as written | input that shows it | evidently intended | confidence | as-written member | corrected member |
|---|---|---|---|---|---|---|
| src/main/java/com/greenfox/dramacsoport/petclinicbackend/services/appUser/auth/AuthServiceImpl.java:93-97 | `authenticateUser` calls `getPassword()` on whatever `findByEmail` returned, with no null check | login with an email nobody registered, e.g. "aaa@example.com" against an empty table | UsernameNotFoundException(notFound), the same as for a wrong password, which `login` declares | medium, not executed | `Auth.UnknownEmailDereferencesNull` | `Auth.LoginOutcome` |
