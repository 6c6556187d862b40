/** The account table across many requests: whatever mix of registrations,
    edits and deletions it goes through, it stays consistent (emails and ids
    unique) and holds only encoded passwords; and how the operations answer
    one another (a login after a registration or an edit, a registration
    after a deletion, the two registrations and logins side by side). */
module Lifecycle {
  import opened Models
  import opened Repository
  import Auth
  import Services
  import UserUpdate
  import Deletion

  /** A request that may change the table. */
  datatype Request =
    | AuthRegister(registration: RegisterRequest)
    | ServiceRegister(registration: RegisterRequest, mailFails: bool)
    | Edit(callerEmail: string, edit: UserUpdate.EditUserRequest)
    | Delete(callerEmail: string, id: int)

  /** The table after one request; an edit request lacking a field the
      validation demands never reaches the edit. */
  function Step(s: Store, req: Request, enc: PasswordEncoder): Store {
    match req
    case AuthRegister(registration) => Auth.RegisterOutcome(s, registration, enc).1
    case ServiceRegister(registration, mailFails) => Services.RegisterOutcome(s, registration, enc, mailFails).1
    case Edit(callerEmail, edit) =>
      if UserUpdate.HasEditFields(edit) then UserUpdate.ChangeOutcome(s, callerEmail, edit, enc).store else s
    case Delete(callerEmail, id) => Deletion.DeleteOutcome(s, callerEmail, id).1
  }

  function Run(s: Store, reqs: seq<Request>, enc: PasswordEncoder): Store
    decreases |reqs|
  {
    if reqs == [] then s else Run(Step(s, reqs[0], enc), reqs[1..], enc)
  }

  /** Every stored password is the encoding of some plaintext. */
  ghost predicate HashesOnly(s: Store, enc: PasswordEncoder) {
    forall e :: e in s.users ==> exists p :: s.users[e].password == enc.encode(p)
  }

  lemma StepPreserves(s: Store, req: Request, enc: PasswordEncoder)
    requires Consistent(s) && HashesOnly(s, enc)
    ensures Consistent(Step(s, req, enc)) && HashesOnly(Step(s, req, enc), enc)
  {
  }

  /** The table's invariants hold after any sequence of requests. */
  lemma {:induction false} RunPreserves(s: Store, reqs: seq<Request>, enc: PasswordEncoder)
    requires Consistent(s) && HashesOnly(s, enc)
    ensures Consistent(Run(s, reqs, enc)) && HashesOnly(Run(s, reqs, enc), enc)
    decreases |reqs|
  {
    if reqs != [] {
      StepPreserves(s, reqs[0], enc);
      RunPreserves(Step(s, reqs[0], enc), reqs[1..], enc);
    }
  }

  /** Starting from an empty table, no sequence of requests yields two
      accounts with one email or one id, or a stored plaintext other than
      an encoder's output. */
  lemma ReachableStoresConsistent(reqs: seq<Request>, enc: PasswordEncoder)
    ensures Consistent(Run(Empty, reqs, enc)) && HashesOnly(Run(Empty, reqs, enc), enc)
  {
    RunPreserves(Empty, reqs, enc);
  }

  /** With the mail delivered, the two registrations agree: the same table
      afterwards, the same saved account, and matching failures. */
  lemma RegistrationVariantsAgree(s: Store, req: RegisterRequest, enc: PasswordEncoder)
    ensures Auth.RegisterOutcome(s, req, enc).1 == Services.RegisterOutcome(s, req, enc, false).1
    ensures Auth.RegisterOutcome(s, req, enc).0.Success? <==> Services.RegisterOutcome(s, req, enc, false).0.Success?
    ensures Auth.RegisterOutcome(s, req, enc).0.Success? ==>
      Auth.RegisterOutcome(s, req, enc).0.value == Services.RegisterOutcome(s, req, enc, false).0.value
    ensures Auth.RegisterOutcome(s, req, enc).0 == Failure(Auth.ShortPassword) <==>
      Services.RegisterOutcome(s, req, enc, false).0 == Failure(Services.RuntimeException(Services.ShortPasswordMessage, Services.PlainException))
    ensures Auth.RegisterOutcome(s, req, enc).0 == Failure(Auth.UserAlreadyExists) <==>
      Services.RegisterOutcome(s, req, enc, false).0 == Failure(Services.RuntimeException(Services.UserExistsMessage, Services.NameAlreadyBound))
  {
  }

  /** The two logins accept the same credentials and issue the same token. */
  lemma LoginVariantsAgree(s: Store, req: LoginRequest, enc: PasswordEncoder, generateToken: AppUser -> string)
    ensures Auth.LoginOutcome(s, req, enc, generateToken).Success? <==> Services.LoginOutcome(s, req, enc, generateToken).Success?
    ensures Auth.LoginOutcome(s, req, enc, generateToken).Success? ==>
      Auth.LoginOutcome(s, req, enc, generateToken).value.token == Services.LoginOutcome(s, req, enc, generateToken).value
  {
  }

  /** Deleting an account right after registering it succeeds (it has no
      pets yet) and gives back the accounts there were before. */
  lemma RegisterThenDeleteRestores(s: Store, req: RegisterRequest, enc: PasswordEncoder, id: int)
    requires Auth.RegisterOutcome(s, req, enc).0.Success?
    ensures Deletion.DeleteOutcome(Auth.RegisterOutcome(s, req, enc).1, req.email, id).0.Success?
    ensures Deletion.DeleteOutcome(Auth.RegisterOutcome(s, req, enc).1, req.email, id).1.users == s.users
  {
  }

  /** After a deletion the email is free again: a login with it fails, and a
      registration with it and a long enough password succeeds. */
  lemma DeleteFreesEmail(s: Store, email: string, id: int, enc: PasswordEncoder, password: string, displayName: string, generateToken: AppUser -> string)
    requires Deletion.DeleteOutcome(s, email, id).0.Success?
    ensures Auth.LoginOutcome(Deletion.DeleteOutcome(s, email, id).1, LoginRequest(email, password), enc, generateToken) == Failure(Auth.NotFound)
    ensures |password| > 3 ==>
      Auth.RegisterOutcome(Deletion.DeleteOutcome(s, email, id).1, RegisterRequest(email, password, displayName), enc).0.Success?
  {
  }

  /** A refused deletion changes no login's answer. */
  lemma BlockedDeleteKeepsLogins(s: Store, email: string, id: int, login: LoginRequest, enc: PasswordEncoder, generateToken: AppUser -> string)
    requires email in s.users && |s.users[email].pets| > 0
    ensures Deletion.DeleteOutcome(s, email, id).0 == Failure(Deletion.DeletionException(Deletion.BlockedMessage))
    ensures Auth.LoginOutcome(Deletion.DeleteOutcome(s, email, id).1, login, enc, generateToken) == Auth.LoginOutcome(s, login, enc, generateToken)
  {
  }

  /** After an edit that sets a new password, the new email and the new
      password log in, with a token for the edited account. */
  lemma EditThenLoginWithNewPassword(s: Store, callerEmail: string, edit: UserUpdate.EditUserRequest, enc: PasswordEncoder, generateToken: AppUser -> string)
    requires Sound(enc)
    requires UserUpdate.HasEditFields(edit) && UserUpdate.SuppliesPassword(edit)
    requires UserUpdate.ChangeOutcome(s, callerEmail, edit, enc).result.Success?
    ensures
      var s' := UserUpdate.ChangeOutcome(s, callerEmail, edit, enc).store;
      Auth.LoginOutcome(s', LoginRequest(edit.email.value, edit.password.value), enc, generateToken)
        == Success(Auth.LoginResponse(generateToken(s'.users[edit.email.value])))
  {
  }

  /** After an edit without a password, the original password still logs in
      under the new email. */
  lemma EditWithoutPasswordKeepsLogin(s: Store, callerEmail: string, edit: UserUpdate.EditUserRequest, enc: PasswordEncoder, generateToken: AppUser -> string)
    requires UserUpdate.HasEditFields(edit) && !UserUpdate.SuppliesPassword(edit)
    requires UserUpdate.ChangeOutcome(s, callerEmail, edit, enc).result.Success?
    ensures
      var outcome := UserUpdate.ChangeOutcome(s, callerEmail, edit, enc);
      && !outcome.loggedOut
      && Auth.LoginOutcome(outcome.store, LoginRequest(edit.email.value, edit.originalPassword.value), enc, generateToken).Success?
  {
  }

  /** An edit that changes the email leaves nothing under the old one: no
      login with it succeeds, and it can be registered anew. */
  lemma EditRetiresOldEmail(s: Store, callerEmail: string, edit: UserUpdate.EditUserRequest, enc: PasswordEncoder, login: LoginRequest, registration: RegisterRequest, generateToken: AppUser -> string)
    requires UserUpdate.HasEditFields(edit) && edit.email.value != callerEmail
    requires UserUpdate.ChangeOutcome(s, callerEmail, edit, enc).result.Success?
    requires login.email == callerEmail && registration.email == callerEmail && |registration.password| > 3
    ensures
      var s' := UserUpdate.ChangeOutcome(s, callerEmail, edit, enc).store;
      && callerEmail !in s'.users
      && Auth.LoginOutcome(s', login, enc, generateToken) == Failure(Auth.NotFound)
      && Auth.RegisterOutcome(s', registration, enc).0.Success?
  {
  }
}
