/** The account repository the services persist into: a table of accounts
    keyed by email. `Store` is its value; the class `AppUserRepository` is
    the object the services share and update in place. */
module Repository {
  import opened Models

  datatype Store = Store(users: map<string, AppUser>, nextId: nat)

  /** The table's invariant: every account sits under its own email (so
      emails are unique), every id was handed out already, and no two
      accounts share an id. */
  ghost predicate Consistent(s: Store) {
    && s.nextId >= 1
    && (forall e :: e in s.users ==> s.users[e].email == e && 1 <= s.users[e].id < s.nextId)
    && (forall e1, e2 :: e1 in s.users && e2 in s.users && s.users[e1].id == s.users[e2].id ==> e1 == e2)
  }

  const Empty: Store := Store(map[], 1)

  /** The account a new entity becomes when it is saved: the same fields,
      with the next free id. */
  function Assigned(s: Store, u: AppUser): AppUser {
    u.(id := s.nextId)
  }

  /** Saving a new entity (its id still unset) whose email is not in the
      table. */
  function Insert(s: Store, u: AppUser): (r: Store)
    requires u.id == UnsavedId && u.email !in s.users
    ensures r.users.Keys == s.users.Keys + {u.email}
    ensures r.users[u.email] == Assigned(s, u)
    ensures forall e :: e in s.users ==> r.users[e] == s.users[e]
    ensures Consistent(s) ==> Consistent(r)
  {
    Store(s.users[u.email := Assigned(s, u)], s.nextId + 1)
  }

  /** Saving an existing account after its fields changed: it keeps its
      id, and if its email changed it moves to the new key. */
  function Replace(s: Store, oldEmail: string, u: AppUser): (r: Store)
    requires oldEmail in s.users && u.id == s.users[oldEmail].id
    requires u.email == oldEmail || u.email !in s.users
    ensures r.users.Keys == s.users.Keys - {oldEmail} + {u.email}
    ensures r.users[u.email] == u
    ensures forall e :: e in s.users && e != oldEmail ==> r.users[e] == s.users[e]
    ensures Consistent(s) ==> Consistent(r)
  {
    Store((s.users - {oldEmail})[u.email := u], s.nextId)
  }

  /** Deleting the account stored under `email`. */
  function Remove(s: Store, email: string): (r: Store)
    ensures r.users.Keys == s.users.Keys - {email}
    ensures forall e :: e in r.users ==> r.users[e] == s.users[e]
    ensures Consistent(s) ==> Consistent(r)
  {
    Store(s.users - {email}, s.nextId)
  }

  class AppUserRepository {
    var users: map<string, AppUser>
    var nextId: nat

    function State(): Store
      reads this
    {
      Store(users, nextId)
    }

    ghost predicate Valid()
      reads this
    {
      Consistent(State())
    }

    constructor ()
      ensures Valid() && State() == Empty
    {
      users := map[];
      nextId := 1;
    }

    method FindByEmail(email: string) returns (r: Option<AppUser>)
      ensures r.Some? <==> email in users
      ensures r.Some? ==> r.value == users[email]
    {
      if email in users {
        r := Some(users[email]);
      } else {
        r := None;
      }
    }

    method ExistsByEmail(email: string) returns (b: bool)
      ensures b <==> email in users
    {
      b := email in users;
    }

    /** `save` of a new entity, one whose id is still unset: it is stored
        under its email with a fresh id, and the stored account is returned. */
    method Save(u: AppUser) returns (saved: AppUser)
      requires Valid() && u.id == UnsavedId && u.email !in users
      modifies this
      ensures Valid()
      ensures saved == Assigned(old(State()), u)
      ensures State() == Insert(old(State()), u)
    {
      saved := u.(id := nextId);
      users := users[u.email := saved];
      nextId := nextId + 1;
    }

    /** `save` of an account that is already stored under `oldEmail`. */
    method SaveExisting(oldEmail: string, u: AppUser)
      requires Valid() && oldEmail in users && u.id == users[oldEmail].id
      requires u.email == oldEmail || u.email !in users
      modifies this
      ensures Valid()
      ensures State() == Replace(old(State()), oldEmail, u)
    {
      users := (users - {oldEmail})[u.email := u];
    }

    /** `delete` of the account stored under `u.email`. */
    method Delete(u: AppUser)
      requires Valid()
      modifies this
      ensures Valid()
      ensures State() == Remove(old(State()), u.email)
    {
      users := users - {u.email};
    }
  }
}
