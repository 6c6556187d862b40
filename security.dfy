/** The caller's authentication context, reduced to the principal it holds.
    Logging out clears it; the tokens handed out before stay as they are. */
module Security {
  import opened Models

  class SecurityContext {
    var authentication: Option<string>

    constructor (principal: Option<string>)
      ensures authentication == principal
    {
      authentication := principal;
    }

    /** logoutUser: the context no longer holds an authentication. */
    method LogoutUser()
      modifies this
      ensures authentication == None
    {
      authentication := None;
    }
  }
}
