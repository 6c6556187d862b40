/** Account deletion: the caller's account is removed only when it has no
    pets left; otherwise the deletion is refused and nothing changes. */
module Deletion {
  import opened Models
  import opened Repository

  const BlockedMessage := "Unable to delete your profile. Please transfer or delete your pets before proceeding."
  const DeletedMessage := "Your profile has been successfully deleted."

  /** DeletionException with its message, or no account under the caller's
      email. */
  datatype DeletionFailure = DeletionException(message: string) | UserNotFound

  datatype DeleteUserResponse = DeleteUserResponse(message: string)

  /** The outcome of deleteUser(userEmail, id) and the table afterwards. The
      id takes no part in it. */
  function DeleteOutcome(s: Store, userEmail: string, id: int): (r: (Result<DeleteUserResponse, DeletionFailure>, Store))
    ensures userEmail !in s.users ==> r == (Failure(UserNotFound), s)
    ensures userEmail in s.users && |s.users[userEmail].pets| > 0 ==> r == (Failure(DeletionException(BlockedMessage)), s)
    ensures r.0.Success? <==> userEmail in s.users && s.users[userEmail].pets == []
    ensures r.0.Success? ==>
      && r.0.value == DeleteUserResponse(DeletedMessage)
      && r.1.users.Keys == s.users.Keys - {userEmail}
      && (forall e :: e in r.1.users ==> r.1.users[e] == s.users[e])
    ensures Consistent(s) ==> Consistent(r.1)
  {
    if userEmail !in s.users then
      (Failure(UserNotFound), s)
    else if |s.users[userEmail].pets| > 0 then
      (Failure(DeletionException(BlockedMessage)), s)
    else
      (Success(DeleteUserResponse(DeletedMessage)), Remove(s, userEmail))
  }

  class AppUserServiceImpl {
    const appUserRepository: AppUserRepository

    constructor (repository: AppUserRepository)
      ensures appUserRepository == repository
    {
      appUserRepository := repository;
    }

    method DeleteUser(userEmail: string, id: int) returns (r: Result<DeleteUserResponse, DeletionFailure>)
      requires appUserRepository.Valid()
      modifies appUserRepository
      ensures appUserRepository.Valid()
      ensures (r, appUserRepository.State()) == DeleteOutcome(old(appUserRepository.State()), userEmail, id)
    {
      var found := appUserRepository.FindByEmail(userEmail);
      if found.None? {
        return Failure(UserNotFound);
      }
      var appUser := found.value;
      if |appUser.pets| > 0 {
        return Failure(DeletionException(BlockedMessage));
      }
      appUserRepository.Delete(appUser);
      return Success(DeleteUserResponse(DeletedMessage));
    }
  }
}
