/** The values the account services pass around: the account entity with its
    role and pets, the registration and login requests, and the two
    collaborators the services only call (the password encoder and the
    token generator), given here as function values. */
module Models {

  datatype Option<T> = None | Some(value: T)

  datatype Result<T, E> = Success(value: T) | Failure(error: E)

  datatype Role = User | Admin

  datatype Pet = Pet(petName: string)

  /** The persisted account. `password` holds the encoder's output, never a
      plaintext; `id` is assigned by the repository when a new account is
      first saved. */
  datatype AppUser = AppUser(
    id: nat,
    email: string,
    password: string,
    displayName: string,
    role: Role,
    pets: seq<Pet>)

  /** The id of an entity that has not been saved yet (a null id in the
      entity); the repository hands out ids from 1 upwards. */
  const UnsavedId: nat := 0

  datatype RegisterRequest = RegisterRequest(email: string, password: string, displayName: string)

  datatype LoginRequest = LoginRequest(email: string, password: string)

  /** The password encoder, seen only through its two operations: `encode`
      turns a plaintext into the stored form, `matches(plain, stored)`
      checks a plaintext against a stored form. */
  datatype PasswordEncoder = PasswordEncoder(
    encode: string -> string,
    matches: (string, string) -> bool)

  /** What every caller relies on: a plaintext matches its own encoding. */
  ghost predicate Sound(enc: PasswordEncoder) {
    forall p :: enc.matches(p, enc.encode(p))
  }

  /** A one-way encoder never hands back its input unchanged. */
  ghost predicate NeverIdentity(enc: PasswordEncoder) {
    forall p :: enc.encode(p) != p
  }

  /** The mapping from a registration request to a fresh entity: email,
      password and display name are copied; the new account is an
      unsaved USER with no pets. */
  function ConvertToEntity(req: RegisterRequest): (r: AppUser)
    ensures r.id == UnsavedId && r.role == User && r.pets == []
    // nothing of the request is lost: it can be read back off the entity
    ensures RegisterRequest(r.email, r.password, r.displayName) == req
  {
    AppUser(UnsavedId, req.email, req.password, req.displayName, User, [])
  }
}
