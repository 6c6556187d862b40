/** AuthServiceImpl: registration and login against the account repository.
    Registration checks the password length, then that the email is free,
    stores the encoded password and saves; the greeting mail it sends in
    between may fail without stopping the save. Login hands out a token
    only when the password matches the stored hash. */
module Auth {
  import opened Models
  import opened Repository

  /** The exceptions AuthServiceImpl throws: PasswordException(shortPassword),
      NameAlreadyBoundException(userAlreadyExists), UsernameNotFoundException(notFound),
      and the NullPointerException its login raises as written for an
      unknown email. */
  datatype AuthFailure = ShortPassword | UserAlreadyExists | NotFound | NullDereference

  datatype LoginResponse = LoginResponse(token: string)

  /** isPasswordLongerThanThreeChar: the password has at least four
      characters. */
  predicate IsPasswordLongerThanThreeChar(password: string): (r: bool)
    ensures r <==> |password| >= 4
  {
    |password| > 3
  }

  /** The entity registerUser saves: the request's fields, with the password
      replaced by its encoding. */
  function NewUser(req: RegisterRequest, enc: PasswordEncoder): AppUser {
    ConvertToEntity(req).(password := enc.encode(req.password))
  }

  /** The outcome of registerUser and the table afterwards. */
  function RegisterOutcome(s: Store, req: RegisterRequest, enc: PasswordEncoder): (r: (Result<AppUser, AuthFailure>, Store))
    // the length rule is checked first, so a short password wins over a taken email
    ensures |req.password| <= 3 ==> r == (Failure(ShortPassword), s)
    ensures |req.password| > 3 && req.email in s.users ==> r == (Failure(UserAlreadyExists), s)
    ensures r.0.Success? <==> |req.password| > 3 && req.email !in s.users
    ensures r.0.Success? ==>
      && r.0.value.email == req.email
      && r.0.value.displayName == req.displayName
      && r.0.value.password == enc.encode(req.password)
      && r.0.value.role == User && r.0.value.pets == []
      && r.1.users.Keys == s.users.Keys + {req.email}
      && r.1.users[req.email] == r.0.value
      && (forall e :: e in s.users ==> r.1.users[e] == s.users[e])
    ensures r.0.Success? && NeverIdentity(enc) ==> r.0.value.password != req.password
    ensures Consistent(s) ==> Consistent(r.1)
  {
    if !IsPasswordLongerThanThreeChar(req.password) then
      (Failure(ShortPassword), s)
    else if req.email in s.users then
      (Failure(UserAlreadyExists), s)
    else
      var newUser := NewUser(req, enc);
      (Success(Assigned(s, newUser)), Insert(s, newUser))
  }

  /** login as written: authenticateUser reads the password of whatever
      findByEmail returned, and that is null for an email nobody registered. */
  function LoginOutcomeAsWritten(s: Store, req: LoginRequest, enc: PasswordEncoder, generateToken: AppUser -> string): (r: Result<LoginResponse, AuthFailure>)
    ensures r == Failure(NullDereference) <==> req.email !in s.users
    ensures r.Success? <==> req.email in s.users && enc.matches(req.password, s.users[req.email].password)
    ensures r.Success? ==> r.value.token == generateToken(s.users[req.email])
    ensures r.Failure? && req.email in s.users ==> r.error == NotFound
  {
    if req.email !in s.users then
      Failure(NullDereference)
    else if enc.matches(req.password, s.users[req.email].password) then
      Success(LoginResponse(generateToken(s.users[req.email])))
    else
      Failure(NotFound)
  }

  /** An unknown email ends in a null dereference rather than the
      UsernameNotFoundException login declares, while the corrected login
      reports it as not found. */
  lemma UnknownEmailDereferencesNull(enc: PasswordEncoder, generateToken: AppUser -> string)
    ensures LoginOutcomeAsWritten(Empty, LoginRequest("aaa@example.com", "password"), enc, generateToken) == Failure(NullDereference)
    ensures LoginOutcome(Empty, LoginRequest("aaa@example.com", "password"), enc, generateToken) == Failure(NotFound)
  {
  }

  /** login with the null case handled: an unknown email fails like a wrong
      password. */
  function LoginOutcome(s: Store, req: LoginRequest, enc: PasswordEncoder, generateToken: AppUser -> string): (r: Result<LoginResponse, AuthFailure>)
    ensures r.Success? <==> req.email in s.users && enc.matches(req.password, s.users[req.email].password)
    ensures r.Success? ==> r.value.token == generateToken(s.users[req.email])
    ensures r.Failure? ==> r.error == NotFound
    ensures req.email in s.users ==> r == LoginOutcomeAsWritten(s, req, enc, generateToken)
  {
    if req.email in s.users && enc.matches(req.password, s.users[req.email].password) then
      Success(LoginResponse(generateToken(s.users[req.email])))
    else
      Failure(NotFound)
  }

  /** Registering and then logging in with the same email and password
      yields the token of the account just saved. */
  lemma RegisterThenLogin(s: Store, req: RegisterRequest, enc: PasswordEncoder, generateToken: AppUser -> string)
    requires Sound(enc)
    requires RegisterOutcome(s, req, enc).0.Success?
    ensures LoginOutcome(RegisterOutcome(s, req, enc).1, LoginRequest(req.email, req.password), enc, generateToken)
         == Success(LoginResponse(generateToken(RegisterOutcome(s, req, enc).0.value)))
  {
  }

  /** A registration that fails leaves every later login answering as before. */
  lemma FailedRegisterKeepsLogins(s: Store, req: RegisterRequest, enc: PasswordEncoder, login: LoginRequest, generateToken: AppUser -> string)
    requires RegisterOutcome(s, req, enc).0.Failure?
    ensures LoginOutcome(RegisterOutcome(s, req, enc).1, login, enc, generateToken) == LoginOutcome(s, login, enc, generateToken)
  {
  }

  class AuthServiceImpl {
    const appUserRepository: AppUserRepository
    const passwordEncoder: PasswordEncoder
    const generateToken: AppUser -> string

    constructor (repository: AppUserRepository, encoder: PasswordEncoder, tokens: AppUser -> string)
      ensures appUserRepository == repository && passwordEncoder == encoder && generateToken == tokens
    {
      appUserRepository := repository;
      passwordEncoder := encoder;
      generateToken := tokens;
    }

    /** registerUser. `mailFails` says whether the greeting mail throws; the
        exception is caught and dropped, so it appears nowhere in the
        outcome. */
    method RegisterUser(userRequest: RegisterRequest, mailFails: bool) returns (r: Result<AppUser, AuthFailure>)
      requires appUserRepository.Valid()
      modifies appUserRepository
      ensures appUserRepository.Valid()
      ensures (r, appUserRepository.State()) == RegisterOutcome(old(appUserRepository.State()), userRequest, passwordEncoder)
    {
      if !IsPasswordLongerThanThreeChar(userRequest.password) {
        return Failure(ShortPassword);
      }
      var registered := IsUserRegistered(userRequest.email);
      if registered {
        return Failure(UserAlreadyExists);
      }
      var newUser := ConvertToEntity(userRequest);
      newUser := newUser.(password := passwordEncoder.encode(userRequest.password));
      // sendEmailAfterRegistration runs here; whatever it throws is swallowed
      var saved := appUserRepository.Save(newUser);
      return Success(saved);
    }

    method Login(requestDTO: LoginRequest) returns (r: Result<LoginResponse, AuthFailure>)
      ensures r == LoginOutcome(appUserRepository.State(), requestDTO, passwordEncoder, generateToken)
    {
      var authenticated := AuthenticateUser(requestDTO);
      if !authenticated {
        return Failure(NotFound);
      }
      var appUser := appUserRepository.FindByEmail(requestDTO.email);
      return Success(LoginResponse(generateToken(appUser.value)));
    }

    /** authenticateUser, with the account looked up once and its absence
        answered with false. */
    method AuthenticateUser(requestDTO: LoginRequest) returns (b: bool)
      ensures b <==> requestDTO.email in appUserRepository.users
                     && passwordEncoder.matches(requestDTO.password, appUserRepository.users[requestDTO.email].password)
    {
      var appUser := appUserRepository.FindByEmail(requestDTO.email);
      b := appUser.Some? && passwordEncoder.matches(requestDTO.password, appUser.value.password);
    }

    method IsUserRegistered(email: string) returns (b: bool)
      ensures b <==> email in appUserRepository.users
    {
      b := appUserRepository.ExistsByEmail(email);
    }
  }
}
