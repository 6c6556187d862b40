/** AppUserServiceImpl: the other registration and login of the code base.
    Registration runs the same two checks in the same order but throws
    RuntimeExceptions with fixed messages, and sends the greeting mail
    without catching its failure, before the save. Login delegates the
    credential check to the authentication manager and turns any
    authentication failure into one UsernameNotFoundException. */
module Services {
  import opened Models
  import opened Repository

  const ShortPasswordMessage := "Password must be longer than 3 characters."
  const UserExistsMessage := "User already exists."
  const AuthenticationFailedMessage := "Authentication failed!"

  /** The cause registerUser attaches to each RuntimeException it throws. */
  datatype Cause = PlainException | NameAlreadyBound

  /** What this service lets escape: its RuntimeExceptions, the mail
      sender's exception, and the login failure. */
  datatype ServiceException =
    | RuntimeException(message: string, cause: Cause)
    | MailException
    | UsernameNotFoundException(message: string)

  /** isPasswordLongerThanThreeChar: the password has at least four
      characters. */
  predicate IsPasswordLongerThanThreeChar(password: string): (r: bool)
    ensures r <==> |password| >= 4
  {
    |password| > 3
  }

  /** The outcome of registerUser and the table afterwards; `mailFails` says
      whether sending the greeting mail throws. */
  function RegisterOutcome(s: Store, req: RegisterRequest, enc: PasswordEncoder, mailFails: bool): (r: (Result<AppUser, ServiceException>, Store))
    // the length rule is checked before the existence check
    ensures |req.password| <= 3 ==> r == (Failure(RuntimeException(ShortPasswordMessage, PlainException)), s)
    ensures |req.password| > 3 && req.email in s.users ==> r == (Failure(RuntimeException(UserExistsMessage, NameAlreadyBound)), s)
    ensures |req.password| > 3 && req.email !in s.users && mailFails ==> r == (Failure(MailException), s)
    ensures r.0.Success? <==> |req.password| > 3 && req.email !in s.users && !mailFails
    ensures r.0.Failure? ==> r.1 == s
    ensures r.0.Success? ==>
      && r.0.value.email == req.email
      && r.0.value.displayName == req.displayName
      && r.0.value.password == enc.encode(req.password)
      && r.0.value.role == User && r.0.value.pets == []
      && r.1.users.Keys == s.users.Keys + {req.email}
      && r.1.users[req.email] == r.0.value
      && (forall e :: e in s.users ==> r.1.users[e] == s.users[e])
    ensures Consistent(s) ==> Consistent(r.1)
  {
    if !IsPasswordLongerThanThreeChar(req.password) then
      (Failure(RuntimeException(ShortPasswordMessage, PlainException)), s)
    else if req.email in s.users then
      (Failure(RuntimeException(UserExistsMessage, NameAlreadyBound)), s)
    else
      var newUser := ConvertToEntity(req).(password := enc.encode(req.password));
      if mailFails then
        (Failure(MailException), s)
      else
        (Success(Assigned(s, newUser)), Insert(s, newUser))
  }

  /** What the authentication manager accepts: an account is loaded for the
      email and the password matches its stored hash. */
  predicate Authenticates(s: Store, email: string, password: string, enc: PasswordEncoder) {
    email in s.users && enc.matches(password, s.users[email].password)
  }

  function LoginOutcome(s: Store, req: LoginRequest, enc: PasswordEncoder, generateToken: AppUser -> string): (r: Result<string, ServiceException>)
    // unknown email and wrong password end in the same exception
    ensures r.Failure? ==> r.error == UsernameNotFoundException(AuthenticationFailedMessage)
    ensures r.Success? <==> req.email in s.users && enc.matches(req.password, s.users[req.email].password)
    ensures r.Success? ==> r.value == generateToken(s.users[req.email])
  {
    if Authenticates(s, req.email, req.password, enc) then
      Success(generateToken(s.users[req.email]))
    else
      Failure(UsernameNotFoundException(AuthenticationFailedMessage))
  }

  /** Registering (with the mail delivered) and then logging in with the
      same credentials yields the token of the account just saved. */
  lemma RegisterThenLogin(s: Store, req: RegisterRequest, enc: PasswordEncoder, generateToken: AppUser -> string)
    requires Sound(enc)
    requires RegisterOutcome(s, req, enc, false).0.Success?
    ensures LoginOutcome(RegisterOutcome(s, req, enc, false).1, LoginRequest(req.email, req.password), enc, generateToken)
         == Success(generateToken(RegisterOutcome(s, req, enc, false).0.value))
  {
  }

  class AppUserServiceImpl {
    const appUserRepository: AppUserRepository
    const passwordEncoder: PasswordEncoder
    const generateToken: AppUser -> string

    constructor (repository: AppUserRepository, encoder: PasswordEncoder, tokens: AppUser -> string)
      ensures appUserRepository == repository && passwordEncoder == encoder && generateToken == tokens
    {
      appUserRepository := repository;
      passwordEncoder := encoder;
      generateToken := tokens;
    }

    /** saveUser: the given entity is stored as it is, under its email and
        with the id the repository assigns, and the stored entity returned. */
    method SaveUser(user: AppUser) returns (saved: AppUser)
      requires appUserRepository.Valid() && user.id == UnsavedId && user.email !in appUserRepository.users
      modifies appUserRepository
      ensures appUserRepository.Valid()
      ensures saved == user.(id := old(appUserRepository.nextId))
      ensures appUserRepository.users == old(appUserRepository.users)[user.email := saved]
      ensures appUserRepository.nextId == old(appUserRepository.nextId) + 1
    {
      saved := appUserRepository.Save(user);
    }

    /** registerUser. `mailFails` says whether sending the greeting mail
        throws; nothing catches it, and it is thrown before the save. */
    method RegisterUser(userRequest: RegisterRequest, mailFails: bool) returns (r: Result<AppUser, ServiceException>)
      requires appUserRepository.Valid()
      modifies appUserRepository
      ensures appUserRepository.Valid()
      ensures (r, appUserRepository.State()) == RegisterOutcome(old(appUserRepository.State()), userRequest, passwordEncoder, mailFails)
    {
      if !IsPasswordLongerThanThreeChar(userRequest.password) {
        return Failure(RuntimeException(ShortPasswordMessage, PlainException));
      }
      var registered := IsUserRegistered(userRequest.email);
      if registered {
        return Failure(RuntimeException(UserExistsMessage, NameAlreadyBound));
      }
      var newUser := ConvertToEntity(userRequest);
      newUser := newUser.(password := passwordEncoder.encode(userRequest.password));
      if mailFails {
        return Failure(MailException);
      }
      var saved := SaveUser(newUser);
      return Success(saved);
    }

    method Login(requestDTO: LoginRequest) returns (r: Result<string, ServiceException>)
      ensures r == LoginOutcome(appUserRepository.State(), requestDTO, passwordEncoder, generateToken)
    {
      var authenticated := Authenticate(requestDTO.email, requestDTO.password);
      if !authenticated {
        return Failure(UsernameNotFoundException(AuthenticationFailedMessage));
      }
      var userDetails := appUserRepository.FindByEmail(requestDTO.email);
      return Success(generateToken(userDetails.value));
    }

    /** The authentication manager's check, as its password-based provider
        makes it: load the account by email, then match the password. */
    method Authenticate(email: string, password: string) returns (b: bool)
      ensures b <==> Authenticates(appUserRepository.State(), email, password, passwordEncoder)
    {
      var loaded := appUserRepository.FindByEmail(email);
      b := loaded.Some? && passwordEncoder.matches(password, loaded.value.password);
    }

    /** isUserRegistered: the email's lookup is present. */
    method IsUserRegistered(email: string) returns (b: bool)
      ensures b <==> email in appUserRepository.users
    {
      var found := appUserRepository.FindByEmail(email);
      b := found.Some?;
    }
  }
}
