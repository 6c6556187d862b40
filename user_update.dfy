/** The profile edit: the request record with the constraints its
    annotations put on each field, and the edit itself, which rewrites the
    caller's own account (new email, display name, and password when one is
    given) and logs the caller out when the password changes. */
module UserUpdate {
  import opened Models
  import opened Repository
  import opened Security
  import Auth
  import Services

  /** The edit request; a field the client left out is None. */
  datatype EditUserRequest = EditUserRequest(
    email: Option<string>,
    originalPassword: Option<string>,
    password: Option<string>,
    username: Option<string>)

  datatype Field = EmailField | OriginalPasswordField | PasswordField | UsernameField

  datatype Constraint = NotNull | NotBlank | NotEmpty | EmailFormat | MinSize | MaxSize | NamePattern

  /** One failed constraint on one field. */
  datatype Violation = Violation(field: Field, constraint: Constraint)

  const MinPasswordLength := 3
  const MaxUsernameLength := 20

  /** Blank as @NotBlank judges it: nothing is left once leading and
      trailing characters up to U+0020 are trimmed. */
  predicate IsBlank(s: string) {
    forall i :: 0 <= i < |s| ==> s[i] <= ' '
  }

  /** One character of the display-name pattern ^[a-zA-Z0-9_-]*$. */
  predicate IsUsernameChar(c: char) {
    ('a' <= c <= 'z') || ('A' <= c <= 'Z') || ('0' <= c <= '9') || c == '_' || c == '-'
  }

  predicate MatchesUsernamePattern(s: string) {
    forall i :: 0 <= i < |s| ==> IsUsernameChar(s[i])
  }

  function Check(ok: bool, v: Violation): set<Violation> {
    if ok then {} else {v}
  }

  /** The failed constraints, field by field. @NotNull, @NotBlank and
      @NotEmpty fail on a missing value; @Email, @Size and @Pattern let a
      missing value pass. Whether a string is a well-formed address is the
      opaque `isEmail`. */
  function EmailViolations(email: Option<string>, isEmail: string -> bool): set<Violation> {
    match email
    case None => {Violation(EmailField, NotNull), Violation(EmailField, NotBlank)}
    case Some(e) => Check(!IsBlank(e), Violation(EmailField, NotBlank)) + Check(isEmail(e), Violation(EmailField, EmailFormat))
  }

  function OriginalPasswordViolations(originalPassword: Option<string>): set<Violation> {
    match originalPassword
    case None => {Violation(OriginalPasswordField, NotNull), Violation(OriginalPasswordField, NotEmpty)}
    case Some(p) => Check(p != "", Violation(OriginalPasswordField, NotEmpty))
  }

  function PasswordViolations(password: Option<string>): set<Violation> {
    match password
    case None => {Violation(PasswordField, NotNull), Violation(PasswordField, NotEmpty)}
    case Some(p) => Check(p != "", Violation(PasswordField, NotEmpty)) + Check(|p| >= MinPasswordLength, Violation(PasswordField, MinSize))
  }

  function UsernameViolations(username: Option<string>): set<Violation> {
    match username
    case None => {Violation(UsernameField, NotNull), Violation(UsernameField, NotBlank)}
    case Some(n) =>
      Check(!IsBlank(n), Violation(UsernameField, NotBlank))
      + Check(MatchesUsernamePattern(n), Violation(UsernameField, NamePattern))
      + Check(|n| <= MaxUsernameLength, Violation(UsernameField, MaxSize))
  }

  function Violations(dto: EditUserRequest, isEmail: string -> bool): set<Violation> {
    EmailViolations(dto.email, isEmail) + OriginalPasswordViolations(dto.originalPassword)
    + PasswordViolations(dto.password) + UsernameViolations(dto.username)
  }

  /** The request every annotation accepts, stated field by field. */
  predicate IsValid(dto: EditUserRequest, isEmail: string -> bool) {
    && dto.email.Some? && !IsBlank(dto.email.value) && isEmail(dto.email.value)
    && dto.originalPassword.Some? && |dto.originalPassword.value| > 0
    && dto.password.Some? && |dto.password.value| >= MinPasswordLength
    && dto.username.Some? && !IsBlank(dto.username.value)
    && MatchesUsernamePattern(dto.username.value) && |dto.username.value| <= MaxUsernameLength
  }

  /** The validator reports nothing exactly for the valid requests. */
  lemma NoViolationsIffValid(dto: EditUserRequest, isEmail: string -> bool)
    ensures Violations(dto, isEmail) == {} <==> IsValid(dto, isEmail)
  {
  }

  /** A name made of pattern characters is blank only when it is empty, so a
      valid display name has 1 to 20 characters. */
  lemma ValidUsernameLength(dto: EditUserRequest, isEmail: string -> bool)
    requires IsValid(dto, isEmail)
    ensures 1 <= |dto.username.value| <= MaxUsernameLength
  {
  }

  /** A three-character password satisfies the request's size rule
      (at least 3), although both registrations refuse it (more than 3),
      whatever the table, the email and the display name. */
  lemma ThreeCharPasswordAccepted(p: string, s: Store, email: string, displayName: string, enc: PasswordEncoder, mailFails: bool)
    requires |p| == 3
    ensures PasswordViolations(Some(p)) == {}
    ensures Auth.RegisterOutcome(s, RegisterRequest(email, p, displayName), enc) == (Failure(Auth.ShortPassword), s)
    ensures Services.RegisterOutcome(s, RegisterRequest(email, p, displayName), enc, mailFails)
         == (Failure(Services.RuntimeException(Services.ShortPasswordMessage, Services.PlainException)), s)
  {
  }

  datatype EditFailure = UserNotFound | WrongOriginalPassword | EmailTaken

  const SavedMessage := "New user data saved."

  /** The fields the edit reads; the controller's validation has made sure
      of them before the edit runs. */
  predicate HasEditFields(req: EditUserRequest) {
    req.email.Some? && req.originalPassword.Some? && req.username.Some?
  }

  /** A new password is given: present and not empty. */
  predicate SuppliesPassword(req: EditUserRequest) {
    req.password.Some? && req.password.value != ""
  }

  /** The account after the edit: new email and display name, the new
      password's encoding when one is given, everything else kept. */
  function Edited(account: AppUser, req: EditUserRequest, enc: PasswordEncoder): AppUser
    requires HasEditFields(req)
  {
    account.(
      email := req.email.value,
      displayName := req.username.value,
      password := if SuppliesPassword(req) then enc.encode(req.password.value) else account.password)
  }

  /** The result of an edit, the table afterwards, and whether the caller
      was logged out. */
  datatype EditOutcome = EditOutcome(result: Result<string, EditFailure>, store: Store, loggedOut: bool)

  function ChangeOutcome(s: Store, callerEmail: string, req: EditUserRequest, enc: PasswordEncoder): (r: EditOutcome)
    requires HasEditFields(req)
    // the failures, in the order they are checked; none changes anything
    ensures callerEmail !in s.users ==> r == EditOutcome(Failure(UserNotFound), s, false)
    ensures callerEmail in s.users && !enc.matches(req.originalPassword.value, s.users[callerEmail].password)
            ==> r == EditOutcome(Failure(WrongOriginalPassword), s, false)
    ensures callerEmail in s.users && enc.matches(req.originalPassword.value, s.users[callerEmail].password)
            && req.email.value != callerEmail && req.email.value in s.users
            ==> r == EditOutcome(Failure(EmailTaken), s, false)
    ensures r.result.Failure? ==> r.store == s && !r.loggedOut
    ensures r.result.Success? <==>
      && callerEmail in s.users
      && enc.matches(req.originalPassword.value, s.users[callerEmail].password)
      && (req.email.value == callerEmail || req.email.value !in s.users)
    ensures r.result.Success? ==> req.email.value in r.store.users
    ensures r.result.Success? ==>
      var before := s.users[callerEmail];
      var after := r.store.users[req.email.value];
      && r.result.value == SavedMessage
      && r.store.users.Keys == s.users.Keys - {callerEmail} + {req.email.value}
      && after.id == before.id
      && after.email == req.email.value
      && after.displayName == req.username.value
      && after.role == before.role && after.pets == before.pets
      && (SuppliesPassword(req) ==> after.password == enc.encode(req.password.value))
      && (!SuppliesPassword(req) ==> after.password == before.password)
      && (forall e :: e in s.users && e != callerEmail ==> r.store.users[e] == s.users[e])
      && r.loggedOut == SuppliesPassword(req)
    ensures Consistent(s) ==> Consistent(r.store)
  {
    if callerEmail !in s.users then
      EditOutcome(Failure(UserNotFound), s, false)
    else if !enc.matches(req.originalPassword.value, s.users[callerEmail].password) then
      EditOutcome(Failure(WrongOriginalPassword), s, false)
    else if req.email.value != callerEmail && req.email.value in s.users then
      EditOutcome(Failure(EmailTaken), s, false)
    else
      var updated := Edited(s.users[callerEmail], req, enc);
      EditOutcome(Success(SavedMessage), Replace(s, callerEmail, updated), SuppliesPassword(req))
  }

  class UserProfileService {
    const appUserRepository: AppUserRepository
    const passwordEncoder: PasswordEncoder
    const securityContext: SecurityContext

    constructor (repository: AppUserRepository, encoder: PasswordEncoder, context: SecurityContext)
      ensures appUserRepository == repository && passwordEncoder == encoder && securityContext == context
    {
      appUserRepository := repository;
      passwordEncoder := encoder;
      securityContext := context;
    }

    /** The profile edit of the caller's own account. The account is
        rewritten in place and saved once; a new password also logs the
        caller out. */
    method ChangeUserData(callerEmail: string, request: EditUserRequest) returns (r: Result<string, EditFailure>)
      requires appUserRepository.Valid() && HasEditFields(request)
      modifies appUserRepository, securityContext
      ensures appUserRepository.Valid()
      ensures var outcome := ChangeOutcome(old(appUserRepository.State()), callerEmail, request, passwordEncoder);
        && r == outcome.result
        && appUserRepository.State() == outcome.store
        && securityContext.authentication == (if outcome.loggedOut then None else old(securityContext.authentication))
    {
      var found := appUserRepository.FindByEmail(callerEmail);
      if found.None? {
        return Failure(UserNotFound);
      }
      var account := found.value;
      if !passwordEncoder.matches(request.originalPassword.value, account.password) {
        return Failure(WrongOriginalPassword);
      }
      var newEmail := request.email.value;
      if newEmail != callerEmail {
        var taken := appUserRepository.ExistsByEmail(newEmail);
        if taken {
          return Failure(EmailTaken);
        }
      }
      account := account.(email := newEmail, displayName := request.username.value);
      if SuppliesPassword(request) {
        account := account.(password := passwordEncoder.encode(request.password.value));
      }
      appUserRepository.SaveExisting(callerEmail, account);
      if SuppliesPassword(request) {
        securityContext.LogoutUser();
      }
      return Success(SavedMessage);
    }
  }
}
